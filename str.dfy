/** The pieces of Rust's `str` library the engine relies on: `trim`, `trim_matches`,
    `starts_with`, `find`, `split`, `split_whitespace` and `lines`, over `seq<char>`. */
module Str {

  /** Rust's `char::is_whitespace`: the Unicode White_Space property. */
  predicate IsWhitespace(c: char)
  {
    c == ' ' || ('\t' <= c <= '\r') || c == '\U{85}' || c == '\U{A0}' || c == '\U{1680}'
    || ('\U{2000}' <= c <= '\U{200A}') || c == '\U{2028}' || c == '\U{2029}'
    || c == '\U{202F}' || c == '\U{205F}' || c == '\U{3000}'
  }

  /** Neither end of `s` is whitespace. */
  predicate IsTrimmed(s: string)
  {
    s == [] || (!IsWhitespace(s[0]) && !IsWhitespace(s[|s| - 1]))
  }

  predicate NoWhitespace(s: string)
  {
    forall i :: 0 <= i < |s| ==> !IsWhitespace(s[i])
  }

  predicate AllWhitespace(s: string)
  {
    forall i :: 0 <= i < |s| ==> IsWhitespace(s[i])
  }

  predicate StartsWith(s: string, prefix: string)
  {
    |prefix| <= |s| && s[..|prefix|] == prefix
  }

  predicate EndsWith(s: string, suffix: string)
  {
    |suffix| <= |s| && s[|s| - |suffix|..] == suffix
  }

  /** `str::trim_start`: drops the leading whitespace and nothing else. */
  function TrimStart(s: string): (r: string)
    ensures |r| <= |s| && r == s[|s| - |r|..]
    ensures forall i :: 0 <= i < |s| - |r| ==> IsWhitespace(s[i])
    ensures r == [] || !IsWhitespace(r[0])
    decreases |s|
  {
    if s != [] && IsWhitespace(s[0]) then TrimStart(s[1..]) else s
  }

  /** `str::trim_end`: drops the trailing whitespace and nothing else. */
  function TrimEnd(s: string): (r: string)
    ensures |r| <= |s| && r == s[..|r|]
    ensures forall i :: |r| <= i < |s| ==> IsWhitespace(s[i])
    ensures r == [] || !IsWhitespace(r[|r| - 1])
    decreases |s|
  {
    if s != [] && IsWhitespace(s[|s| - 1]) then TrimEnd(s[..|s| - 1]) else s
  }

  /** `str::trim`. */
  function Trim(s: string): (r: string)
    ensures IsTrimmed(r)
    ensures |r| <= |s|
    ensures r == [] <==> AllWhitespace(s)
    ensures IsTrimmed(s) ==> r == s
    ensures forall c :: c in r ==> c in s
  {
    TrimBlank(s);
    TrimKeepsChars(s);
    TrimEnd(TrimStart(s))
  }

  /** Trimming leaves nothing exactly when there is nothing but whitespace. */
  lemma TrimBlank(s: string)
    ensures TrimEnd(TrimStart(s)) == [] <==> AllWhitespace(s)
  {
    var t := TrimStart(s);
    var r := TrimEnd(t);
    if r == [] {
      assert t == [];
    } else {
      assert r[0] == t[0] == s[|s| - |t|];
    }
  }

  /** Trimming only removes characters. */
  lemma TrimKeepsChars(s: string)
    ensures forall c :: c in TrimEnd(TrimStart(s)) ==> c in s
  {
    var t := TrimStart(s);
    var r := TrimEnd(t);
    assert forall c :: c in r ==> c in t;
    assert forall c :: c in t ==> c in s;
  }

  /** `str::trim_start_matches(c)` for a single character: drops every leading `c`. */
  function TrimStartChar(s: string, c: char): (r: string)
    ensures |r| <= |s| && r == s[|s| - |r|..]
    ensures forall i :: 0 <= i < |s| - |r| ==> s[i] == c
    ensures r == [] || r[0] != c
    decreases |s|
  {
    if s != [] && s[0] == c then TrimStartChar(s[1..], c) else s
  }

  /** `str::trim_end_matches(c)` for a single character: drops every trailing `c`. */
  function TrimEndChar(s: string, c: char): (r: string)
    ensures |r| <= |s| && r == s[..|r|]
    ensures forall i :: |r| <= i < |s| ==> s[i] == c
    ensures r == [] || r[|r| - 1] != c
    decreases |s|
  {
    if s != [] && s[|s| - 1] == c then TrimEndChar(s[..|s| - 1], c) else s
  }

  /** `str::trim_matches(c)` for a single character: every leading and every trailing
      `c` goes, whatever is between stays. */
  function TrimChar(s: string, c: char): (r: string)
    ensures |r| <= |s|
    ensures r == [] || (r[0] != c && r[|r| - 1] != c)
    ensures s != [] && s[0] != c && s[|s| - 1] != c ==> r == s
    ensures forall x :: x in r ==> x in s
    ensures NoWhitespace(s) ==> NoWhitespace(r)
  {
    TrimCharEnds(s, c);
    TrimCharKeepsChars(s, c);
    TrimEndChar(TrimStartChar(s, c), c)
  }

  /** Neither end of the result is `c`. */
  lemma TrimCharEnds(s: string, c: char)
    ensures var r := TrimEndChar(TrimStartChar(s, c), c); r == [] || (r[0] != c && r[|r| - 1] != c)
  {
    var t := TrimStartChar(s, c);
    var r := TrimEndChar(t, c);
    assert r != [] ==> r[0] == t[0];
  }

  /** Trimming a character only removes characters. */
  lemma TrimCharKeepsChars(s: string, c: char)
    ensures forall x :: x in TrimEndChar(TrimStartChar(s, c), c) ==> x in s
  {
    var t := TrimStartChar(s, c);
    var r := TrimEndChar(t, c);
    assert forall x :: x in r ==> x in t;
    assert forall x :: x in t ==> x in s;
  }

  /** `str::find(c)` on `s[from..]`, as an absolute position; `|s|` when there is none. */
  function IndexOfFrom(s: string, from: nat, c: char): (r: nat)
    requires from <= |s|
    ensures from <= r <= |s|
    ensures r < |s| ==> s[r] == c
    decreases |s| - from
  {
    if from == |s| || s[from] == c then from else IndexOfFrom(s, from + 1, c)
  }

  /** `IndexOfFrom` finds the first `c`: none lies between `from` and the result. */
  lemma {:induction false} IndexOfFromFirst(s: string, from: nat, c: char)
    requires from <= |s|
    ensures forall i :: from <= i < IndexOfFrom(s, from, c) ==> s[i] != c
    decreases |s| - from
  {
    if from < |s| && s[from] != c {
      IndexOfFromFirst(s, from + 1, c);
    }
  }

  /** How many times `c` occurs in `s`. */
  function Count(s: string, c: char): nat
    decreases |s|
  {
    if s == [] then 0 else Count(s[..|s| - 1], c) + (if s[|s| - 1] == c then 1 else 0)
  }

  /** `str::split(sep)`: the pieces between the separators, one more than there are
      separators, each free of `sep`. */
  function Split(s: string, sep: char): (r: seq<string>)
    ensures |r| == Count(s, sep) + 1
    ensures forall k :: 0 <= k < |r| ==> sep !in r[k]
    decreases |s|
  {
    if s == [] then [[]]
    else
      var p := Split(s[..|s| - 1], sep);
      if s[|s| - 1] == sep then p + [[]]
      else p[..|p| - 1] + [p[|p| - 1] + [s[|s| - 1]]]
  }

  /** The pieces glued back together with `sep` between them. */
  function JoinWith(parts: seq<string>, sep: char): string
    decreases |parts|
  {
    if parts == [] then []
    else if |parts| == 1 then parts[0]
    else JoinWith(parts[..|parts| - 1], sep) + [sep] + parts[|parts| - 1]
  }

  /** Splitting loses nothing: joining the pieces gives the string back. */
  lemma {:induction false} SplitJoin(s: string, sep: char)
    ensures JoinWith(Split(s, sep), sep) == s
    decreases |s|
  {
    if s != [] {
      var s' := s[..|s| - 1];
      var p := Split(s', sep);
      SplitJoin(s', sep);
      assert s == s' + [s[|s| - 1]];
      if s[|s| - 1] != sep {
        var p' := p[..|p| - 1] + [p[|p| - 1] + [s[|s| - 1]]];
        assert p'[..|p'| - 1] == p[..|p| - 1];
        if |p| > 1 {
          assert JoinWith(p, sep) == JoinWith(p[..|p| - 1], sep) + [sep] + p[|p| - 1];
        }
      } else {
        var p' := p + [[]];
        assert p'[..|p'| - 1] == p;
      }
    }
  }

  /** A text without the separator is one piece. */
  lemma {:induction false} SplitWithout(s: string, sep: char)
    requires sep !in s
    ensures Split(s, sep) == [s]
    decreases |s|
  {
    if s != [] {
      assert sep !in s[..|s| - 1];
      SplitWithout(s[..|s| - 1], sep);
      assert s[..|s| - 1] + [s[|s| - 1]] == s;
    }
  }

  /** Appending a separator and a piece without one appends that piece. */
  lemma {:induction false} SplitAppend(s: string, x: string, sep: char)
    requires sep !in x
    ensures Split(s + [sep] + x, sep) == Split(s, sep) + [x]
    decreases |x|
  {
    if x == [] {
      assert (s + [sep] + x)[..|s|] == s;
    } else {
      var y := x[..|x| - 1];
      assert sep !in y;
      SplitAppend(s, y, sep);
      assert (s + [sep] + x)[..|s + [sep] + x| - 1] == s + [sep] + y;
      assert y + [x[|x| - 1]] == x;
    }
  }

  /** Joining pieces that hold no separator, then splitting, gives the pieces back. */
  lemma {:induction false} JoinSplit(parts: seq<string>, sep: char)
    requires parts != []
    requires forall k :: 0 <= k < |parts| ==> sep !in parts[k]
    ensures Split(JoinWith(parts, sep), sep) == parts
    decreases |parts|
  {
    if |parts| == 1 {
      SplitWithout(parts[0], sep);
    } else {
      var init := parts[..|parts| - 1];
      JoinSplit(init, sep);
      SplitAppend(JoinWith(init, sep), parts[|parts| - 1], sep);
      assert init + [parts[|parts| - 1]] == parts;
    }
  }

  /** Joining with a leading piece. */
  /** Joining adds no character other than the separator. */
  lemma {:induction false} JoinWithout(parts: seq<string>, sep: char, c: char)
    requires c != sep && forall k :: 0 <= k < |parts| ==> c !in parts[k]
    ensures c !in JoinWith(parts, sep)
    decreases |parts|
  {
    if |parts| > 1 {
      JoinWithout(parts[..|parts| - 1], sep, c);
    }
  }

  lemma {:induction false} JoinWithCons(w: string, rest: seq<string>, sep: char)
    requires rest != []
    ensures JoinWith([w] + rest, sep) == w + [sep] + JoinWith(rest, sep)
    decreases |rest|
  {
    var all := [w] + rest;
    assert all[..|all| - 1] == [w] + rest[..|rest| - 1];
    if |rest| > 1 {
      JoinWithCons(w, rest[..|rest| - 1], sep);
    } else {
      assert all[..|all| - 1] == [w];
    }
  }

  /** The first `n` characters of `s` carry no whitespace; `n` stops at the first
      whitespace or at the end. */
  function WordLength(s: string): (n: nat)
    ensures n <= |s|
    ensures forall i :: 0 <= i < n ==> !IsWhitespace(s[i])
    ensures n < |s| ==> IsWhitespace(s[n])
    decreases |s|
  {
    if s == [] || IsWhitespace(s[0]) then 0 else 1 + WordLength(s[1..])
  }

  /** `str::split_whitespace`: the maximal runs of non-whitespace, in order. */
  function Words(s: string): (ws: seq<string>)
    ensures forall k :: 0 <= k < |ws| ==> ws[k] != [] && NoWhitespace(ws[k])
    decreases |s|
  {
    if s == [] then []
    else if IsWhitespace(s[0]) then Words(s[1..])
    else
      var n := WordLength(s);
      [s[..n]] + Words(s[n..])
  }

  /** A word followed by whitespace, or by nothing, is read whole. */
  lemma {:induction false} WordLengthOf(w: string, rest: string)
    requires NoWhitespace(w)
    requires rest == [] || IsWhitespace(rest[0])
    ensures WordLength(w + rest) == |w|
    decreases |w|
  {
    if w != [] {
      assert (w + rest)[1..] == w[1..] + rest;
      WordLengthOf(w[1..], rest);
    } else {
      assert w + rest == rest;
    }
  }

  /** `split_whitespace` undoes joining words with spaces: the words are the maximal
      runs of non-whitespace, in order. */
  lemma {:induction false} WordsJoin(ws: seq<string>)
    requires forall k :: 0 <= k < |ws| ==> ws[k] != [] && NoWhitespace(ws[k])
    ensures Words(JoinWith(ws, ' ')) == ws
    decreases |ws|
  {
    if ws != [] {
      var w := ws[0];
      if |ws| == 1 {
        WordLengthOf(w, []);
        assert w + [] == w && w[..|w|] == w && w[|w|..] == [];
      } else {
        var rest := ws[1..];
        var tail := JoinWith(rest, ' ');
        JoinWithCons(w, rest, ' ');
        assert [w] + rest == ws;
        var s := w + [' '] + tail;
        WordLengthOf(w, [' '] + tail);
        assert s == w + ([' '] + tail);
        assert s[..|w|] == w && s[|w|..] == [' '] + tail && ([' '] + tail)[1..] == tail;
        WordsJoin(rest);
      }
    }
  }

  /** Drops one trailing carriage return, if there is one. */
  function StripCR(s: string): (r: string)
    ensures r == s || (s == r + ['\r'])
  {
    if s != [] && s[|s| - 1] == '\r' then s[..|s| - 1] else s
  }

  /** Rust's `str::lines`: the text cut at each `\n`, a `\r` right before a `\n` dropped
      with it, and no empty last line when the text ends with `\n`. */
  function Lines(content: string): (ls: seq<string>)
    ensures forall k :: 0 <= k < |ls| ==> '\n' !in ls[k]
    ensures content == [] ==> ls == []
  {
    var pieces := Split(content, '\n');
    var last := pieces[|pieces| - 1];
    var closed := seq(|pieces| - 1, k requires 0 <= k < |pieces| - 1 => StripCR(pieces[k]));
    assert forall k :: 0 <= k < |closed| ==> '\n' !in closed[k] by {
      forall k | 0 <= k < |closed| ensures '\n' !in closed[k] {
        assert '\n' !in pieces[k];
      }
    }
    closed + (if last == [] then [] else [last])
  }
}
