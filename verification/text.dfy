/** String primitives the parsers are built from, each pinned down by a
    contract that characterises Python's `str.strip`, `str.split` and
    `str.replace` on the inputs the model uses. */
module Text {
  import opened Results
  import opened Sequences

  /** The characters `str.strip()` removes in this model (the ASCII ones
      Python treats as whitespace). */
  predicate IsSpace(c: char) {
    c == ' ' || c == '\t' || c == '\n' || c == '\r'
    || c == '\U{000B}' || c == '\U{000C}'
    || c == '\U{001C}' || c == '\U{001D}' || c == '\U{001E}' || c == '\U{001F}'
  }

  predicate AllSpace(s: string) {
    forall i :: 0 <= i < |s| ==> IsSpace(s[i])
  }

  /** Neither end of `s` is whitespace: `s.strip() == s`. */
  predicate Trimmed(s: string) {
    |s| == 0 || (!IsSpace(s[0]) && !IsSpace(s[|s| - 1]))
  }

  /** `s.lstrip()`: the suffix left after dropping leading whitespace. */
  function TrimLeft(s: string): (r: string)
    ensures |r| <= |s| && r == s[|s| - |r|..]
    ensures AllSpace(s[..|s| - |r|])
    ensures |r| > 0 ==> !IsSpace(r[0])
    decreases |s|
  {
    if |s| > 0 && IsSpace(s[0]) then
      var r := TrimLeft(s[1..]);
      assert s[..|s| - |r|] == [s[0]] + s[1..][..|s| - 1 - |r|];
      r
    else
      s
  }

  /** `s.rstrip()`: the prefix left after dropping trailing whitespace. */
  function TrimRight(s: string): (r: string)
    ensures |r| <= |s| && r == s[..|r|]
    ensures AllSpace(s[|r|..])
    ensures |r| > 0 ==> !IsSpace(r[|r| - 1])
    decreases |s|
  {
    if |s| > 0 && IsSpace(s[|s| - 1]) then
      var r := TrimRight(s[..|s| - 1]);
      assert s[|r|..] == s[..|s| - 1][|r|..] + [s[|s| - 1]];
      r
    else
      s
  }

  /** `s.strip()`. */
  function Strip(s: string): (r: string)
    ensures |r| <= |s|
    ensures forall x :: x in r ==> x in s
    ensures Trimmed(r)
    ensures Trimmed(s) ==> r == s
    ensures r == [] <==> AllSpace(s)
  {
    var l := TrimLeft(s);
    var r := TrimRight(l);
    StripWithin(s);
    StripEnds(s);
    StripBlank(s);
    r
  }

  /** The stripped text is a slice of the input: what it cuts off on
      either side is whitespace. */
  lemma StripIsSlice(s: string)
    ensures var r := Strip(s);
            exists i :: 0 <= i <= |s| - |r| && r == s[i..i + |r|]
                        && AllSpace(s[..i]) && AllSpace(s[i + |r|..])
  {
    var l := TrimLeft(s);
    var r := TrimRight(l);
    var i := |s| - |l|;
    assert r == s[i..i + |r|];
    assert s[i + |r|..] == l[|r|..];
  }

  /** What is left after trimming both ends is a slice of the text. */
  lemma StripWithin(s: string)
    ensures forall x :: x in TrimRight(TrimLeft(s)) ==> x in s
  {
    var l := TrimLeft(s);
    var r := TrimRight(l);
    forall x | x in r ensures x in s {
      var i :| 0 <= i < |r| && r[i] == x;
      assert r[i] == l[i] == s[|s| - |l| + i];
    }
  }

  /** Trimming both ends leaves no whitespace at either end, and changes
      nothing when there was none. */
  lemma StripEnds(s: string)
    ensures Trimmed(TrimRight(TrimLeft(s)))
    ensures Trimmed(s) ==> TrimRight(TrimLeft(s)) == s
  {
    var l := TrimLeft(s);
    var r := TrimRight(l);
    if |r| > 0 {
      assert r[0] == l[0];
    }
    if Trimmed(s) && |s| > 0 {
      assert TrimLeft(s) == s;
      assert TrimRight(s) == s;
    }
  }

  /** Trimming both ends leaves nothing exactly when the text is all
      whitespace. */
  lemma StripBlank(s: string)
    ensures TrimRight(TrimLeft(s)) == [] <==> AllSpace(s)
  {
    LeftBlank(s);
    RightOfLeft(s);
  }

  /** The left trim is empty exactly when the text is all whitespace. */
  lemma LeftBlank(s: string)
    ensures TrimLeft(s) == [] <==> AllSpace(s)
  {
    if TrimLeft(s) == [] {
      assert s[..|s|] == s;
    } else {
      TrimLeftStart(s);
      NonBlankAt(s, |s| - |TrimLeft(s)|);
    }
  }

  /** A left-trimmed text starts with a non-space character, so the right
      trim empties it only when it is already empty. */
  lemma RightOfLeft(s: string)
    ensures TrimRight(TrimLeft(s)) == [] <==> TrimLeft(s) == []
  {
    if |TrimLeft(s)| > 0 {
      TrimRightKeepsFirst(TrimLeft(s));
    }
  }

  /** The right trim keeps a leading non-space character. */
  lemma {:induction false} TrimRightKeepsFirst(l: string)
    requires |l| > 0 && !IsSpace(l[0])
    ensures |TrimRight(l)| > 0
    decreases |l|
  {
    if IsSpace(l[|l| - 1]) {
      TrimRightKeepsFirst(l[..|l| - 1]);
    }
  }

  /** A non-empty left trim starts at a non-space character of the text. */
  lemma TrimLeftStart(s: string)
    requires |TrimLeft(s)| > 0
    ensures !IsSpace(s[|s| - |TrimLeft(s)|])
  {
    assert TrimLeft(s)[0] == s[|s| - |TrimLeft(s)|];
  }

  /** A text with a non-space character is not blank. */
  lemma NonBlankAt(s: string, k: nat)
    requires k < |s| && !IsSpace(s[k])
    ensures !AllSpace(s)
  {
  }

  // ---------------------------------------------------------------------
  // Whitespace lemmas
  // ---------------------------------------------------------------------

  lemma AllSpaceFront(x: string)
    requires |x| > 0
    ensures AllSpace(x) <==> IsSpace(x[0]) && AllSpace(x[1..])
  {
    assert forall i :: 0 < i < |x| ==> x[i] == x[1..][i - 1];
  }

  lemma AllSpaceBack(y: string)
    requires |y| > 0
    ensures AllSpace(y) <==> IsSpace(y[|y| - 1]) && AllSpace(y[..|y| - 1])
  {
    assert forall i :: 0 <= i < |y| - 1 ==> y[i] == y[..|y| - 1][i];
  }

  lemma {:induction false} TrimLeftAppend(x: string, y: string)
    ensures TrimLeft(x + y) == if AllSpace(x) then TrimLeft(y) else TrimLeft(x) + y
    decreases |x|
  {
    if |x| == 0 {
      assert x + y == y;
    } else {
      AllSpaceFront(x);
      assert (x + y)[0] == x[0];
      if IsSpace(x[0]) {
        assert (x + y)[1..] == x[1..] + y;
        TrimLeftAppend(x[1..], y);
      }
    }
  }

  lemma {:induction false} TrimRightAppend(x: string, y: string)
    ensures TrimRight(x + y) == if AllSpace(y) then TrimRight(x) else x + TrimRight(y)
    decreases |y|
  {
    if |y| == 0 {
      assert x + y == x;
    } else {
      AllSpaceBack(y);
      assert (x + y)[|x + y| - 1] == y[|y| - 1];
      if IsSpace(y[|y| - 1]) {
        assert (x + y)[..|x + y| - 1] == x + y[..|y| - 1];
        TrimRightAppend(x, y[..|y| - 1]);
      }
    }
  }

  lemma TrimLeftIdempotent(s: string)
    ensures TrimLeft(TrimLeft(s)) == TrimLeft(s)
  {
  }

  /** Leading whitespace does not change the stripped text. */
  lemma StripSpacePrefix(w: string, s: string)
    requires AllSpace(w)
    ensures Strip(w + s) == Strip(s)
  {
    TrimLeftAppend(w, s);
  }

  /** Trailing whitespace does not change the stripped text. */
  lemma StripSpaceSuffix(s: string, w: string)
    requires AllSpace(w)
    ensures Strip(s + w) == Strip(s)
  {
    TrimLeftAppend(s, w);
    if AllSpace(s) {
      TrimLeftAppend(w, []);
      assert w + [] == w;
      assert TrimLeft(s) == [] by { TrimLeftAppend(s, []); assert s + [] == s; }
    } else {
      TrimRightAppend(TrimLeft(s), w);
    }
  }

  lemma TrimLeftThrough(a: string, c: char, b: string)
    requires !IsSpace(c)
    ensures TrimLeft(a + [c] + b) == TrimLeft(a) + [c] + b
  {
    var cb := [c] + b;
    assert a + [c] + b == a + cb;
    assert TrimLeft(a) + [c] + b == TrimLeft(a) + cb;
    assert cb[0] == c;
    TrimLeftAppend(a, cb);
  }

  lemma TrimRightThrough(a: string, c: char, b: string)
    requires !IsSpace(c)
    ensures TrimRight(a + [c] + b) == a + [c] + TrimRight(b)
  {
    var ac := a + [c];
    assert ac[|ac| - 1] == c;
    TrimRightAppend(ac, b);
  }

  /** Stripping a text that has a non-space character in it trims only the
      outer pieces around that character. */
  lemma StripAround(a: string, c: char, b: string)
    requires !IsSpace(c)
    ensures Strip(a + [c] + b) == TrimLeft(a) + [c] + TrimRight(b)
  {
    StripUnfold(a + [c] + b);
    TrimLeftThrough(a, c, b);
    TrimRightThrough(TrimLeft(a), c, b);
  }

  /** Split a stripped text at a non-space separator that the text before
      it lacks: stripping each half gives the stripped pieces around it. */
  lemma StripHalves(a: string, c: char, b: string)
    requires !IsSpace(c) && c !in a
    ensures SplitOnce(Strip(a + [c] + b), [c]).Some?
    ensures Strip(SplitOnce(Strip(a + [c] + b), [c]).value.0) == Strip(a)
    ensures Strip(SplitOnce(Strip(a + [c] + b), [c]).value.1) == Strip(b)
  {
    StripSplitsAt(a, c, b);
    StripTrimLeft(a);
    StripTrimRight(b);
  }

  lemma StripSplitsAt(a: string, c: char, b: string)
    requires !IsSpace(c) && c !in a
    ensures SplitOnce(Strip(a + [c] + b), [c]) == Some((TrimLeft(a), TrimRight(b)))
  {
    StripAround(a, c, b);
    var l := TrimLeft(a);
    assert forall x :: x in l ==> x in a;
    ContainsChar(l, c);
    SingleCharBorderFree(c);
    SplitOnceAfterPart(l, [c], TrimRight(b));
  }

  lemma StripTrimLeft(a: string)
    ensures Strip(TrimLeft(a)) == Strip(a)
  {
    StripUnfold(a);
    StripUnfold(TrimLeft(a));
    TrimLeftIdempotent(a);
  }

  lemma StripTrimRight(b: string)
    ensures Strip(TrimRight(b)) == Strip(b)
  {
    var r := TrimRight(b);
    assert b == r + b[|r|..];
    StripSpaceSuffix(r, b[|r|..]);
  }

  lemma StripUnfold(s: string)
    ensures Strip(s) == TrimRight(TrimLeft(s))
  {
  }

  /** Two trimmed texts glued by a non-space character stay trimmed. */
  lemma TrimmedAround(a: string, c: char, b: string)
    requires Trimmed(a) && Trimmed(b) && !IsSpace(c)
    ensures Trimmed(a + [c] + b)
  {
    var s := a + [c] + b;
    assert s[0] == if |a| > 0 then a[0] else c;
    assert s[|s| - 1] == if |b| > 0 then b[|b| - 1] else c;
  }

  // ---------------------------------------------------------------------
  // Searching and splitting
  // ---------------------------------------------------------------------

  predicate OccursAt(s: string, sep: string, i: nat) {
    i + |sep| <= |s| && s[i..i + |sep|] == sep
  }

  ghost predicate Contains(s: string, sep: string) {
    exists i: nat :: OccursAt(s, sep, i)
  }

  /** A separator none of whose proper prefixes is also a suffix; splitting on
      such a separator never finds a spurious match across a join. */
  predicate BorderFree(sep: string) {
    forall k :: 0 < k < |sep| ==> sep[..k] != sep[|sep| - k..]
  }

  /** `s.find(sep)`: the leftmost occurrence of `sep`, if any. */
  function Find(s: string, sep: string): (r: Option<nat>)
    requires |sep| > 0
    ensures r.Some? ==> OccursAt(s, sep, r.value)
    ensures r.Some? ==> forall j: nat :: j < r.value ==> !OccursAt(s, sep, j)
    ensures r.None? <==> !Contains(s, sep)
    decreases |s|
  {
    if |s| < |sep| then
      None
    else if s[..|sep|] == sep then
      assert OccursAt(s, sep, 0);
      Some(0)
    else
      assert s[0..|sep|] == s[..|sep|];
      match Find(s[1..], sep)
      case None =>
        NoOccurrenceStep(s, sep);
        None
      case Some(k) =>
        FirstOccurrenceStep(s, sep, k);
        Some(k + 1)
  }

  lemma NoOccurrenceStep(s: string, sep: string)
    requires |s| > 0 && !OccursAt(s, sep, 0) && !Contains(s[1..], sep)
    ensures !Contains(s, sep)
  {
    ShiftOccurrence(s, sep);
    forall i: nat ensures !OccursAt(s, sep, i) {
      if i > 0 {
        assert !OccursAt(s[1..], sep, i - 1);
      }
    }
  }

  lemma FirstOccurrenceStep(s: string, sep: string, k: nat)
    requires |s| > 0 && !OccursAt(s, sep, 0) && OccursAt(s[1..], sep, k)
    requires forall j: nat :: j < k ==> !OccursAt(s[1..], sep, j)
    ensures OccursAt(s, sep, k + 1)
    ensures forall j: nat :: j < k + 1 ==> !OccursAt(s, sep, j)
  {
    ShiftOccurrence(s, sep);
    forall j: nat | j < k + 1 ensures !OccursAt(s, sep, j) {
      if j > 0 {
        assert !OccursAt(s[1..], sep, j - 1);
      }
    }
  }

  /** An occurrence at `i + 1` in `s` is an occurrence at `i` in `s[1..]`. */
  lemma ShiftOccurrence(s: string, sep: string)
    requires |s| > 0
    ensures forall i: nat :: OccursAt(s[1..], sep, i) <==> OccursAt(s, sep, i + 1)
  {
    forall i: nat ensures OccursAt(s[1..], sep, i) <==> OccursAt(s, sep, i + 1) {
      if i + |sep| <= |s[1..]| {
        assert s[1..][i..i + |sep|] == s[i + 1..i + 1 + |sep|];
      }
    }
  }

  /** The text before the first occurrence does not contain the separator. */
  lemma NoOccurrenceBefore(s: string, sep: string, n: nat)
    requires |sep| > 0 && n <= |s|
    requires forall j: nat :: j < n ==> !OccursAt(s, sep, j)
    ensures !Contains(s[..n], sep)
  {
    forall j: nat ensures !OccursAt(s[..n], sep, j) {
      if j + |sep| <= n {
        assert s[..n][j..j + |sep|] == s[j..j + |sep|];
        assert j < n;
        assert !OccursAt(s, sep, j);
      }
    }
  }

  /** `s.split(sep)`. */
  function Split(s: string, sep: string): (parts: seq<string>)
    requires |sep| > 0
    ensures |parts| >= 1
    ensures Join(parts, sep) == s
    ensures forall k :: 0 <= k < |parts| ==> !Contains(parts[k], sep)
    decreases |s|
  {
    match Find(s, sep)
    case None => [s]
    case Some(i) =>
      var head := s[..i];
      var tail := Split(s[i + |sep|..], sep);
      NoOccurrenceBefore(s, sep, i);
      assert s == head + sep + s[i + |sep|..];
      [head] + tail
  }

  /** `sep.join(parts)`. */
  function Join(parts: seq<string>, sep: string): string {
    if |parts| == 0 then []
    else if |parts| == 1 then parts[0]
    else parts[0] + sep + Join(parts[1..], sep)
  }

  /** `s.split(sep, 1)`: `None` when the separator is absent (Python returns a
      one-element list), otherwise the text before and after its first
      occurrence. */
  function SplitOnce(s: string, sep: string): (r: Option<(string, string)>)
    requires |sep| > 0
    ensures r.None? <==> !Contains(s, sep)
    ensures r.Some? ==> s == r.value.0 + sep + r.value.1
    ensures r.Some? ==> !Contains(r.value.0, sep)
    ensures |sep| == 1 ==> (r.None? <==> sep[0] !in s)
    ensures |sep| == 1 && r.Some? ==> sep[0] !in r.value.0
  {
    SingleCharSeparator(s, sep);
    match Find(s, sep)
    case None => None
    case Some(i) =>
      SingleCharSeparator(s[..i], sep);
      var head := s[..i];
      NoOccurrenceBefore(s, sep, i);
      assert s == head + sep + s[i + |sep|..];
      Some((head, s[i + |sep|..]))
  }

  /** `s.replace(c, '')`. */
  function RemoveAll(s: string, c: char): (r: string)
    ensures c !in r
    ensures IsSubseq(r, s)
    ensures c !in s ==> r == s
    ensures |r| == |s| - multiset(s)[c]
  {
    if |s| == 0 then []
    else
      assert s == [s[0]] + s[1..];
      var tail := RemoveAll(s[1..], c);
      var r := (if s[0] == c then [] else [s[0]]) + tail;
      assert if s[0] == c then r == tail else r[0] == s[0] && r[1..] == tail;
      r
  }

  /** A subsequence free of `c` leaves out at least every `c`. */
  lemma {:induction false} SubsequenceMissing(r: string, s: string, c: char)
    requires IsSubseq(r, s) && c !in r
    ensures |r| + multiset(s)[c] <= |s|
    decreases |s|
  {
    if |s| > 0 {
      assert s == [s[0]] + s[1..];
      if |r| > 0 && r[0] == s[0] && IsSubseq(r[1..], s[1..]) {
        assert r[0] in r;
        SubsequenceMissing(r[1..], s[1..], c);
      } else if |r| > 0 {
        SubsequenceMissing(r, s[1..], c);
      } else {
        assert multiset(s)[c] <= |multiset(s)|;
      }
    }
  }

  /** Removing every `c` is the only way to leave out exactly the `c`s while
      keeping the order: the contract of `RemoveAll` determines its result. */
  lemma {:induction false} RemoveAllUnique(r: string, s: string, c: char)
    requires IsSubseq(r, s) && c !in r && |r| == |s| - multiset(s)[c]
    ensures r == RemoveAll(s, c)
    decreases |s|
  {
    if |s| > 0 {
      assert s == [s[0]] + s[1..];
      if s[0] == c {
        assert |r| > 0 ==> r[0] != s[0] by {
          if |r| > 0 { assert r[0] in r; }
        }
        RemoveAllUnique(r, s[1..], c);
      } else if |r| > 0 && r[0] == s[0] && IsSubseq(r[1..], s[1..]) {
        RemoveAllUnique(r[1..], s[1..], c);
        assert r == [r[0]] + r[1..];
      } else {
        SubsequenceMissing(r, s[1..], c);
      }
    }
  }

  // ---------------------------------------------------------------------
  // Splitting undoes joining
  // ---------------------------------------------------------------------

  /** For a one-character separator, containing it is ordinary membership. */
  lemma ContainsChar(s: string, c: char)
    ensures Contains(s, [c]) <==> c in s
  {
    if c in s {
      var i :| 0 <= i < |s| && s[i] == c;
      assert OccursAt(s, [c], i);
    }
    if Contains(s, [c]) {
      var i: nat :| OccursAt(s, [c], i);
      assert s[i] == s[i..i + 1][0];
    }
  }

  lemma SingleCharSeparator(s: string, sep: string)
    ensures |sep| == 1 ==> (Contains(s, sep) <==> sep[0] in s)
  {
    if |sep| == 1 {
      assert sep == [sep[0]];
      ContainsChar(s, sep[0]);
    }
  }

  lemma SingleCharBorderFree(c: char)
    ensures BorderFree([c])
  {
  }

  /** When the text before a separator does not contain it, the first
      occurrence is exactly that separator. */
  lemma {:induction false} FindAfterPart(p: string, sep: string, rest: string)
    requires |sep| > 0 && BorderFree(sep)
    requires !Contains(p, sep)
    ensures Find(p + sep + rest, sep) == Some(|p|)
  {
    var s := p + sep + rest;
    assert OccursAt(s, sep, |p|) by {
      assert s[|p|..|p| + |sep|] == sep;
    }
    forall j: nat | j < |p| ensures !OccursAt(s, sep, j) {
      if j + |sep| <= |p| {
        assert s[j..j + |sep|] == p[j..j + |sep|];
        assert !OccursAt(p, sep, j);
      } else {
        var m := |p| - j;
        var k := |sep| - m;
        assert sep[..k] != sep[|sep| - k..];
        var t :| 0 <= t < k && sep[..k][t] != sep[|sep| - k..][t];
        assert s[j + m + t] == sep[t];
        assert s[j..j + |sep|][m + t] != sep[m + t];
      }
    }
    assert Contains(s, sep);
  }

  lemma SplitOnceAfterPart(p: string, sep: string, rest: string)
    requires |sep| > 0 && BorderFree(sep)
    requires !Contains(p, sep)
    ensures SplitOnce(p + sep + rest, sep) == Some((p, rest))
  {
    FindAfterPart(p, sep, rest);
    var s := p + sep + rest;
    assert s[..|p|] == p;
    assert s[|p| + |sep|..] == rest;
  }

  /** Splitting a joined list returns the list, provided no part holds the
      separator and the separator cannot straddle a join. */
  lemma {:induction false} SplitJoin(parts: seq<string>, sep: string)
    requires |sep| > 0 && BorderFree(sep)
    requires |parts| >= 1
    requires forall k :: 0 <= k < |parts| ==> !Contains(parts[k], sep)
    ensures Split(Join(parts, sep), sep) == parts
  {
    if |parts| == 1 {
      assert Find(parts[0], sep).None?;
    } else {
      var rest := Join(parts[1..], sep);
      FindAfterPart(parts[0], sep, rest);
      var s := parts[0] + sep + rest;
      assert s[..|parts[0]|] == parts[0];
      assert s[|parts[0]| + |sep|..] == rest;
      SplitJoin(parts[1..], sep);
      assert parts == [parts[0]] + parts[1..];
    }
  }

  /** A character absent from every part and from the separator is absent
      from the joined text. */
  lemma {:induction false} JoinAvoids(parts: seq<string>, sep: string, c: char)
    requires c !in sep
    requires forall k :: 0 <= k < |parts| ==> c !in parts[k]
    ensures c !in Join(parts, sep)
  {
    if |parts| > 1 {
      JoinAvoids(parts[1..], sep, c);
    }
  }
}
