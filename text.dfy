/** String operations of the JavaScript runtime that the search engine relies on:
    the `\s` character class and `trim()`, `replace(/\s+/g, ' ')`,
    `split` on a run-matching regular expression, `a || b` on strings, number
    formatting and `Array.prototype.join`. */
module Text {

  import opened Common

  /** ECMAScript WhiteSpace and LineTerminator code points: exactly what `\s`
      matches and what `String.prototype.trim` removes. */
  predicate IsWhitespace(c: char) {
    c == '\t' || c == '\n' || c == '\U{000B}' || c == '\U{000C}' || c == '\r' || c == ' '
    || c == '\U{00A0}' || c == '\U{1680}' || ('\U{2000}' <= c <= '\U{200A}')
    || c == '\U{2028}' || c == '\U{2029}' || c == '\U{202F}' || c == '\U{205F}'
    || c == '\U{3000}' || c == '\U{FEFF}'
  }

  /** The character class `[.!?]` used to split content into sentences. */
  predicate IsSentenceEnd(c: char) {
    c == '.' || c == '!' || c == '?'
  }

  /** Removes the longest prefix of characters satisfying `p`. */
  function DropWhile(s: string, p: char -> bool): (r: string)
    ensures |r| <= |s| && r == s[|s| - |r|..]
    ensures forall i :: 0 <= i < |s| - |r| ==> p(s[i])
    ensures r != [] ==> !p(r[0])
    decreases |s|
  {
    if s != [] && p(s[0]) then DropWhile(s[1..], p) else s
  }

  /** Removes the longest suffix of whitespace. */
  function TrimEnd(s: string): (r: string)
    ensures |r| <= |s| && r == s[..|r|]
    ensures forall i :: |r| <= i < |s| ==> IsWhitespace(s[i])
    ensures r != [] ==> !IsWhitespace(r[|r| - 1])
    decreases |s|
  {
    if s != [] && IsWhitespace(s[|s| - 1]) then TrimEnd(s[..|s| - 1]) else s
  }

  function TrimStart(s: string): string {
    DropWhile(s, IsWhitespace)
  }

  /** `String.prototype.trim`. */
  function Trim(s: string): string {
    TrimEnd(TrimStart(s))
  }

  /** The string has no whitespace at either end. */
  predicate IsTrimmed(s: string) {
    s == [] || (!IsWhitespace(s[0]) && !IsWhitespace(s[|s| - 1]))
  }

  /** No two adjacent characters are both whitespace. */
  predicate NoAdjacentWhitespace(s: string) {
    forall i :: 0 <= i < |s| - 1 ==> !(IsWhitespace(s[i]) && IsWhitespace(s[i + 1]))
  }

  /** Every whitespace character in `s` is a plain space. */
  predicate OnlySpaces(s: string) {
    forall i :: 0 <= i < |s| && IsWhitespace(s[i]) ==> s[i] == ' '
  }

  /** The characters of `s` that do not satisfy `p`, in order. */
  function Without(s: string, p: char -> bool): string
    decreases |s|
  {
    if s == [] then []
    else if p(s[0]) then Without(s[1..], p)
    else [s[0]] + Without(s[1..], p)
  }

  /** The number of whitespace characters in `s`. */
  function CountWhitespace(s: string): nat
    decreases |s|
  {
    if s == [] then 0 else (if IsWhitespace(s[0]) then 1 else 0) + CountWhitespace(s[1..])
  }

  lemma {:induction false} TrimIsTrimmed(s: string)
    ensures IsTrimmed(Trim(s))
    ensures Trim(s) == [] <==> forall i :: 0 <= i < |s| ==> IsWhitespace(s[i])
  {
    var t := TrimStart(s);
    var r := TrimEnd(t);
    if t == [] {
      assert r == [];
    } else {
      assert !IsWhitespace(t[0]) && t[0] == s[|s| - |t|];
      assert r != [] && r[0] == t[0];
    }
  }

  /** `trim()` is a contiguous slice of its input. */
  lemma TrimIsSlice(s: string) returns (start: nat)
    ensures start + |Trim(s)| <= |s| && Trim(s) == s[start..start + |Trim(s)|]
  {
    var t := TrimStart(s);
    start := |s| - |t|;
    assert Trim(s) == t[..|Trim(s)|];
  }

  /** `replace(/\s+/g, ' ')`: every maximal run of whitespace becomes one space. */
  function CollapseWhitespace(s: string): (r: string)
    ensures |r| <= |s|
    ensures r == [] <==> s == []
    ensures r != [] ==> (IsWhitespace(r[0]) <==> IsWhitespace(s[0]))
    ensures OnlySpaces(r)
    ensures NoAdjacentWhitespace(r)
    decreases |s|
  {
    if s == [] then []
    else if IsWhitespace(s[0]) then [' '] + CollapseWhitespace(TrimStart(s))
    else [s[0]] + CollapseWhitespace(s[1..])
  }

  lemma {:induction false} WithoutDrop(s: string, p: char -> bool)
    ensures Without(DropWhile(s, p), p) == Without(s, p)
    decreases |s|
  {
    if s != [] && p(s[0]) {
      WithoutDrop(s[1..], p);
    }
  }

  lemma {:induction false} WithoutSnoc(s: string, c: char, p: char -> bool)
    ensures Without(s + [c], p) == Without(s, p) + (if p(c) then [] else [c])
    decreases |s|
  {
    if s == [] {
      assert s + [c] == [c];
    } else {
      assert (s + [c])[1..] == s[1..] + [c];
      WithoutSnoc(s[1..], c, p);
    }
  }

  /** Collapsing changes only whitespace: the other characters survive in order. */
  lemma {:induction false} CollapseKeepsText(s: string)
    ensures Without(CollapseWhitespace(s), IsWhitespace) == Without(s, IsWhitespace)
    decreases |s|
  {
    if s == [] {
    } else if IsWhitespace(s[0]) {
      var t := TrimStart(s);
      CollapseKeepsText(t);
      WithoutDrop(s, IsWhitespace);
      assert ([' '] + CollapseWhitespace(t))[1..] == CollapseWhitespace(t);
    } else {
      CollapseKeepsText(s[1..]);
      assert ([s[0]] + CollapseWhitespace(s[1..]))[1..] == CollapseWhitespace(s[1..]);
    }
  }

  /** Collapsing keeps the words: splitting at whitespace runs gives the same
      pieces before and after. */
  lemma {:induction false} CollapseKeepsWords(s: string)
    ensures SplitOnRuns(CollapseWhitespace(s), IsWhitespace) == SplitOnRuns(s, IsWhitespace)
    decreases |s|
  {
    if s == [] {
    } else if IsWhitespace(s[0]) {
      var t := TrimStart(s);
      var ct := CollapseWhitespace(t);
      CollapseKeepsWords(t);
      assert DropWhile([' '] + ct, IsWhitespace) == ct by {
        assert ([' '] + ct)[1..] == ct;
      }
    } else {
      CollapseKeepsWords(s[1..]);
      assert ([s[0]] + CollapseWhitespace(s[1..]))[1..] == CollapseWhitespace(s[1..]);
    }
  }

  /** Collapsing twice is the same as collapsing once. */
  lemma {:induction false} CollapseIdempotent(s: string)
    ensures CollapseWhitespace(CollapseWhitespace(s)) == CollapseWhitespace(s)
  {
    var r := CollapseWhitespace(s);
    CollapseFixesCollapsed(r);
  }

  lemma {:induction false} CollapseFixesCollapsed(r: string)
    requires OnlySpaces(r) && NoAdjacentWhitespace(r)
    ensures CollapseWhitespace(r) == r
    decreases |r|
  {
    if r != [] {
      var rest := r[1..];
      assert OnlySpaces(rest) && NoAdjacentWhitespace(rest) by {
        assert forall i :: 0 <= i < |rest| ==> rest[i] == r[i + 1];
      }
      CollapseFixesCollapsed(rest);
      if IsWhitespace(r[0]) {
        assert TrimStart(r) == rest by {
          if rest != [] { assert !IsWhitespace(rest[0]); }
        }
      }
    }
  }

  /** The slice-closed properties of a collapsed string survive any slice. */
  lemma SliceKeepsCollapsed(s: string, i: nat, j: nat)
    requires i <= j <= |s| && OnlySpaces(s) && NoAdjacentWhitespace(s)
    ensures OnlySpaces(s[i..j]) && NoAdjacentWhitespace(s[i..j])
  {
    assert forall k :: 0 <= k < j - i ==> s[i..j][k] == s[i + k];
  }

  /** `split(re)` for a regular expression matching maximal runs of characters
      satisfying `p` (such as `/\s+/` or `/[.!?]+/`): the pieces between the runs,
      with an empty first or last piece when `s` starts or ends with a run. */
  function SplitOnRuns(s: string, p: char -> bool): (r: seq<string>)
    ensures |r| >= 1
    ensures forall k, i :: 0 <= k < |r| && 0 <= i < |r[k]| ==> !p(r[k][i])
    decreases |s|
  {
    if s == [] then [[]]
    else if p(s[0]) then [[]] + SplitOnRuns(DropWhile(s, p), p)
    else
      var rest := SplitOnRuns(s[1..], p);
      [[s[0]] + rest[0]] + rest[1..]
  }

  /** `s.split(/\s+/).length` counts one piece more than there are whitespace
      characters, once no two whitespace characters are adjacent. */
  lemma {:induction false} SplitCountsWhitespace(s: string)
    requires NoAdjacentWhitespace(s)
    ensures |SplitOnRuns(s, IsWhitespace)| == CountWhitespace(s) + 1
    decreases |s|
  {
    if s != [] {
      var rest := s[1..];
      assert NoAdjacentWhitespace(rest) by {
        assert forall i :: 0 <= i < |rest| ==> rest[i] == s[i + 1];
      }
      SplitCountsWhitespace(rest);
      if IsWhitespace(s[0]) {
        assert DropWhile(s, IsWhitespace) == rest by {
          if rest != [] { assert !IsWhitespace(rest[0]); }
        }
      }
    }
  }

  /** The pieces of a split, put back together. */
  function Concat(pieces: seq<string>): string
    decreases |pieces|
  {
    if pieces == [] then [] else pieces[0] + Concat(pieces[1..])
  }

  /** The number of maximal runs of characters satisfying `p`, counted at the
      last character of each run. */
  function Runs(s: string, p: char -> bool): nat
    decreases |s|
  {
    if s == [] then 0
    else (if p(s[0]) && (|s| == 1 || !p(s[1])) then 1 else 0) + Runs(s[1..], p)
  }

  lemma {:induction false} RunsDrop(s: string, p: char -> bool)
    requires s != [] && p(s[0])
    ensures Runs(s, p) == 1 + Runs(DropWhile(s, p), p)
    decreases |s|
  {
    var rest := s[1..];
    if rest != [] && p(rest[0]) {
      RunsDrop(rest, p);
    }
  }

  /** `split` loses exactly the separator characters, and cuts once per run of
      them: the pieces put back together are `s` without its separators, and
      there is one piece more than there are runs. */
  lemma {:induction false} SplitRejoins(s: string, p: char -> bool)
    ensures Concat(SplitOnRuns(s, p)) == Without(s, p)
    ensures |SplitOnRuns(s, p)| == Runs(s, p) + 1
    decreases |s|
  {
    if s == [] {
    } else if p(s[0]) {
      var t := DropWhile(s, p);
      SplitRejoins(t, p);
      WithoutDrop(s, p);
      RunsDrop(s, p);
      assert ([[]] + SplitOnRuns(t, p))[1..] == SplitOnRuns(t, p);
    } else {
      var rest := SplitOnRuns(s[1..], p);
      SplitRejoins(s[1..], p);
      var r := [[s[0]] + rest[0]] + rest[1..];
      assert r[1..] == rest[1..];
      assert Concat(rest) == rest[0] + Concat(rest[1..]);
      assert Concat(r) == [s[0]] + rest[0] + Concat(rest[1..]);
    }
  }

  /** Every character of `s[lo..hi]` satisfies `p`. */
  predicate RunOf(s: string, p: char -> bool, lo: nat, hi: nat)
    requires lo <= hi <= |s|
  {
    forall i :: lo <= i < hi ==> p(s[i])
  }

  /** Piece `k` ends before piece `k + 1` starts, and a non-empty run of
      `p`-characters lies between them. */
  predicate Separated(s: string, p: char -> bool, pieces: seq<string>, starts: seq<nat>, k: nat)
    requires k + 1 < |starts| && |starts| == |pieces|
  {
    starts[k] + |pieces[k]| < starts[k + 1] <= |s| && RunOf(s, p, starts[k] + |pieces[k]|, starts[k + 1])
  }

  /** `starts` lays the pieces out over `s` from left to right: the first at
      the start, the last at the end, and between two neighbours a non-empty
      run of `p`-characters. */
  predicate PlacesPieces(s: string, p: char -> bool, pieces: seq<string>, starts: seq<nat>) {
    |starts| == |pieces| && |starts| >= 1 && starts[0] == 0
    && (forall k :: 0 <= k < |starts| ==>
          starts[k] + |pieces[k]| <= |s| && s[starts[k]..starts[k] + |pieces[k]|] == pieces[k])
    && (forall k :: 0 <= k < |starts| - 1 ==> Separated(s, p, pieces, starts, k))
    && starts[|starts| - 1] + |pieces[|starts| - 1]| == |s|
  }

  /** The `i`-th placed piece, read off its place. */
  lemma PlacedAt(s: string, p: char -> bool, pieces: seq<string>, starts: seq<nat>, i: nat)
    requires PlacesPieces(s, p, pieces, starts) && i < |pieces|
    ensures starts[i] + |pieces[i]| <= |s| && s[starts[i]..starts[i] + |pieces[i]|] == pieces[i]
  {
  }

  /** The pieces of a split, laid out in order over the input with the
      separator runs between them: the split read as a decomposition of `s`. */
  lemma {:induction false} SplitPiecesAreSlices(s: string, p: char -> bool) returns (starts: seq<nat>)
    ensures PlacesPieces(s, p, SplitOnRuns(s, p), starts)
    decreases |s|
  {
    if s == [] {
      starts := [0];
    } else if p(s[0]) {
      var t := DropWhile(s, p);
      var st := SplitPiecesAreSlices(t, p);
      assert t == s[|s| - |t|..];
      assert SplitOnRuns(s, p) == [[]] + SplitOnRuns(t, p);
      starts := PlacesShifted(s, p, |s| - |t|, SplitOnRuns(t, p), st);
    } else {
      var st := SplitPiecesAreSlices(s[1..], p);
      var rest := SplitOnRuns(s[1..], p);
      assert SplitOnRuns(s, p) == [[s[0]] + rest[0]] + rest[1..];
      starts := PlacesExtended(s, p, rest, st);
    }
  }

  /** Pieces placed in a suffix `s[off..]` behind a leading run of `p`-characters,
      with an empty piece in front of them, are placed in `s`. */
  lemma PlacesShifted(s: string, p: char -> bool, off: nat, pieces: seq<string>, st: seq<nat>)
    returns (starts: seq<nat>)
    requires 1 <= off <= |s| && RunOf(s, p, 0, off) && PlacesPieces(s[off..], p, pieces, st)
    ensures PlacesPieces(s, p, [[]] + pieces, starts)
  {
    var t, r := s[off..], [[]] + pieces;
    starts := [0] + seq(|st|, k requires 0 <= k < |st| => st[k] + off);
    forall k | 0 <= k < |starts|
      ensures starts[k] + |r[k]| <= |s| && s[starts[k]..starts[k] + |r[k]|] == r[k]
    {
      if k == 0 {
        assert r[0] == [];
      } else {
        var piece, j := pieces[k - 1], st[k - 1];
        assert r[k] == piece && starts[k] == off + j;
        assert t[j..j + |piece|] == piece;
        SliceOfSlice(s, off, j, |piece|);
      }
    }
    forall k | 0 <= k < |starts| - 1 ensures Separated(s, p, r, starts, k) {
      if k == 0 {
        assert r[0] == [] && starts[1] == off;
      } else {
        var lo, hi := st[k - 1] + |pieces[k - 1]|, st[k];
        assert Separated(t, p, pieces, st, k - 1);
        assert starts[k] + |r[k]| == lo + off && starts[k + 1] == hi + off;
        forall i | lo + off <= i < hi + off ensures p(s[i]) {
          assert s[i] == t[i - off];
        }
      }
    }
    assert starts[|starts| - 1] == st[|st| - 1] + off;
  }

  /** Pieces placed in `s[1..]` stay placed in `s` once `s[0]` joins the first of them. */
  lemma PlacesExtended(s: string, p: char -> bool, rest: seq<string>, st: seq<nat>) returns (starts: seq<nat>)
    requires s != [] && PlacesPieces(s[1..], p, rest, st)
    ensures PlacesPieces(s, p, [[s[0]] + rest[0]] + rest[1..], starts)
  {
    var t, r := s[1..], [[s[0]] + rest[0]] + rest[1..];
    starts := [0] + seq(|st| - 1, k requires 0 <= k < |st| - 1 => st[k + 1] + 1);
    forall k | 0 <= k < |starts|
      ensures starts[k] + |r[k]| <= |s| && s[starts[k]..starts[k] + |r[k]|] == r[k]
    {
      if k == 0 {
        assert t[0..|rest[0]|] == rest[0];
        assert s[0..1 + |rest[0]|] == [s[0]] + t[0..|rest[0]|];
      } else {
        var piece, j := rest[k], st[k];
        assert r[k] == piece && starts[k] == 1 + j;
        assert t[j..j + |piece|] == piece;
        SliceOfSlice(s, 1, j, |piece|);
      }
    }
    forall k | 0 <= k < |starts| - 1 ensures Separated(s, p, r, starts, k) {
      var lo, hi := st[k] + |rest[k]|, st[k + 1];
      assert Separated(t, p, rest, st, k);
      assert starts[k] + |r[k]| == lo + 1 && starts[k + 1] == hi + 1;
      forall i | lo + 1 <= i < hi + 1 ensures p(s[i]) {
        assert s[i] == t[i - 1];
      }
    }
    assert |starts| - 1 == 0 ==> r[0] == [s[0]] + rest[0] && st[0] == 0;
    assert |starts| - 1 > 0 ==> starts[|starts| - 1] == st[|st| - 1] + 1;
  }

  /** JavaScript's `a || b` on strings: `a` unless it is empty. */
  function Or(a: string, b: string): string {
    if a != [] then a else b
  }

  function DigitChar(d: nat): (c: char)
    requires d < 10
  {
    ('0' as int + d) as char
  }

  /** How a JavaScript number that is a non-negative integer prints in a template. */
  function DecimalString(n: nat): (r: string)
    ensures |r| >= 1 && forall i :: 0 <= i < |r| ==> '0' <= r[i] <= '9'
    ensures r[0] == '0' <==> n == 0
  {
    if n < 10 then [DigitChar(n)] else DecimalString(n / 10) + [DigitChar(n % 10)]
  }

  /** The value of a string of decimal digits. */
  function DecimalValue(s: string): nat
    requires forall i :: 0 <= i < |s| ==> '0' <= s[i] <= '9'
    decreases |s|
  {
    if s == [] then 0
    else DecimalValue(s[..|s| - 1]) * 10 + (s[|s| - 1] as int - '0' as int)
  }

  /** The printed number reads back as the same number. */
  lemma {:induction false} DecimalRoundTrip(n: nat)
    ensures DecimalValue(DecimalString(n)) == n
  {
    var s := DecimalString(n);
    if n >= 10 {
      DecimalRoundTrip(n / 10);
      assert s[..|s| - 1] == DecimalString(n / 10);
    } else {
      assert s[..0] == [];
    }
  }

  /** `Array.prototype.join(sep)`. */
  function Join(parts: seq<string>, sep: string): string
    decreases |parts|
  {
    if parts == [] then []
    else if |parts| == 1 then parts[0]
    else Join(parts[..|parts| - 1], sep) + sep + parts[|parts| - 1]
  }

  /** Joining two non-empty lists is joining each and putting `sep` between the
      results: `join` places `sep` between every two neighbours and nowhere else. */
  lemma {:induction false} JoinAppend(xs: seq<string>, ys: seq<string>, sep: string)
    requires xs != [] && ys != []
    ensures Join(xs + ys, sep) == Join(xs, sep) + sep + Join(ys, sep)
    decreases |ys|
  {
    var zs, init := xs + ys, ys[..|ys| - 1];
    assert zs[..|zs| - 1] == xs + init && zs[|zs| - 1] == ys[|ys| - 1];
    assert Join(zs, sep) == Join(xs + init, sep) + sep + ys[|ys| - 1];
    if |ys| == 1 {
      assert xs + init == xs && Join(ys, sep) == ys[0];
    } else {
      JoinAppend(xs, init, sep);
      assert Join(ys, sep) == Join(init, sep) + sep + ys[|ys| - 1];
    }
  }
}
