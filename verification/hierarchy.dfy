/** The hierarchy reorder of `Config.parse`: `_insert_after_parent` and
    `_reorder` rebuild a depth-first display order from flat records that
    refer to their parent by name only. */
module Hierarchy {
  import opened Results
  import opened Sequences
  import opened Entries

  /** Python truthiness of `_parent`: a parent name that is present and
      non-empty. Records without one are appended, not inserted. */
  predicate HasParentRef(e: Entry) {
    e.parent.Some? && e.parent.value != []
  }

  /** Some record of `l` bears the name `n`. */
  ghost predicate Named(l: seq<Entry>, n: string) {
    exists i :: 0 <= i < |l| && l[i].name == n
  }

  /** The index of the first record named `name`: the parent lookup, where
      the first match wins. */
  function FindName(l: seq<Entry>, name: string): (r: Option<nat>)
    ensures r.Some? ==> r.value < |l| && l[r.value].name == name
    ensures r.Some? ==> forall j :: 0 <= j < r.value ==> l[j].name != name
    ensures r.None? <==> !Named(l, name)
  {
    if |l| == 0 then
      None
    else if l[0].name == name then
      Some(0)
    else
      match FindName(l[1..], name)
      case None =>
        assert forall j :: 0 < j < |l| ==> l[j] == l[1..][j - 1];
        None
      case Some(k) =>
        assert l[k + 1] == l[1..][k];
        Some(k + 1)
  }

  /** `k` is the position right after the descendant run of the record at
      `p`: every record strictly between them is deeper than it, and the
      record at `k`, if any, is not. */
  ghost predicate RunEndsAt(l: seq<Entry>, p: nat, k: nat) {
    && p < k <= |l|
    && (forall j :: p < j < k ==> l[j].level > l[p].level)
    && (k < |l| ==> l[k].level <= l[p].level)
  }

  /** Scan from `i` for the first record whose level is at most that of the
      record at `p`. */
  function RunEnd(l: seq<Entry>, p: nat, i: nat): (k: nat)
    requires p < i <= |l|
    requires forall j :: p < j < i ==> l[j].level > l[p].level
    ensures RunEndsAt(l, p, k)
    decreases |l| - i
  {
    if i == |l| then i
    else if l[i].level <= l[p].level then i
    else RunEnd(l, p, i + 1)
  }

  /** `_insert_after_parent`: place `e` right after the descendant run of the
      first record named as its parent. When that run reaches the end of the
      list, `e` is appended unless an equal record is already present. With
      no record of that name the source raises. */
  function InsertAfterParent(l: seq<Entry>, e: Entry): (r: Result<seq<Entry>, ParseError>)
    requires HasParentRef(e)
    ensures r.Failure? <==> !Named(l, e.parent.value)
    ensures r.Failure? ==> r.error == Orphan(e.parent.value, e.name)
    ensures r.Success? ==>
              var p := FindName(l, e.parent.value).value;
              || (exists k: nat :: RunEndsAt(l, p, k) && (k == |l| ==> e !in l)
                              && r.value == l[..k] + [e] + l[k..])
              || (RunEndsAt(l, p, |l|) && e in l && r.value == l)
    ensures r.Success? ==> IsSubseq(l, r.value)
    ensures r.Success? ==> forall x :: x in r.value <==> x in l || x == e
    ensures r.Success? ==>
              || (|r.value| == |l| + 1 && multiset(r.value) == multiset(l) + multiset{e})
              || (r.value == l && e in l)
  {
    match FindName(l, e.parent.value)
    case None => Failure(Orphan(e.parent.value, e.name))
    case Some(p) =>
      var k := RunEnd(l, p, p + 1);
      InsertAt(l, k, e);
      if k < |l| then
        Success(l[..k] + [e] + l[k..])
      else if e in l then
        SubseqRefl(l);
        Success(l)
      else
        assert l == l[..k] && l[k..] == [];
        Success(l + [e])
  }

  /** The loop of `_insert_after_parent` as written: one scan that first looks
      for the parent and then for the end of its run, inserting at the first
      record no deeper than the parent. */
  method InsertAfterParentLoop(l: seq<Entry>, e: Entry) returns (r: Result<seq<Entry>, ParseError>)
    requires HasParentRef(e)
    ensures r == InsertAfterParent(l, e)
  {
    var parent: Option<nat> := None;
    var i := 0;
    while i < |l|
      invariant 0 <= i <= |l|
      invariant parent.None? ==> forall j :: 0 <= j < i ==> l[j].name != e.parent.value
      invariant parent.Some? ==>
                  && FindName(l, e.parent.value) == parent
                  && parent.value < i
                  && forall j :: parent.value < j < i ==> l[j].level > l[parent.value].level
    {
      if parent.None? {
        if l[i].name == e.parent.value {
          parent := Some(i);
        }
      } else if l[i].level <= l[parent.value].level {
        assert RunEnd(l, parent.value, parent.value + 1) == i by {
          RunEndUnique(l, parent.value, RunEnd(l, parent.value, parent.value + 1), i);
        }
        return Success(l[..i] + [e] + l[i..]);
      }
      i := i + 1;
    }
    if parent.None? {
      return Failure(Orphan(e.parent.value, e.name));
    }
    assert RunEnd(l, parent.value, parent.value + 1) == |l| by {
      RunEndUnique(l, parent.value, RunEnd(l, parent.value, parent.value + 1), |l|);
    }
    if e !in l {
      r := Success(l + [e]);
      assert l + [e] == l[..|l|] + [e] + l[|l|..];
    } else {
      r := Success(l);
    }
  }

  /** The end of a descendant run is unique. */
  lemma RunEndUnique(l: seq<Entry>, p: nat, k1: nat, k2: nat)
    requires RunEndsAt(l, p, k1) && RunEndsAt(l, p, k2)
    ensures k1 == k2
  {
  }

  // ---------------------------------------------------------------------
  // Insertion keeps what was there
  // ---------------------------------------------------------------------

  /** Inserting one element at position `k`: the old sequence is a
      subsequence of the new one, which holds exactly one more copy of the
      element and nothing else new. */
  lemma InsertAt<T>(l: seq<T>, k: nat, e: T)
    requires k <= |l|
    ensures IsSubseq(l, l[..k] + [e] + l[k..])
    ensures multiset(l[..k] + [e] + l[k..]) == multiset(l) + multiset{e}
    ensures forall x :: x in l[..k] + [e] + l[k..] <==> x in l || x == e
  {
    InsertSubseq(l, k, e);
    InsertCount(l, k, e);
    InsertMembers(l, k, e);
  }

  lemma InsertCount<T>(l: seq<T>, k: nat, e: T)
    requires k <= |l|
    ensures multiset(l[..k] + [e] + l[k..]) == multiset(l) + multiset{e}
  {
    assert l == l[..k] + l[k..];
  }

  lemma InsertMembers<T>(l: seq<T>, k: nat, e: T)
    requires k <= |l|
    ensures forall x :: x in l[..k] + [e] + l[k..] <==> x in l || x == e
  {
    assert l == l[..k] + l[k..];
  }

  lemma {:induction false} InsertSubseq<T>(l: seq<T>, k: nat, e: T)
    requires k <= |l|
    ensures IsSubseq(l, l[..k] + [e] + l[k..])
    decreases k
  {
    var n := l[..k] + [e] + l[k..];
    if k == 0 {
      assert n[1..] == l;
      SubseqRefl(l);
    } else {
      InsertSubseq(l[1..], k - 1, e);
      assert n[0] == l[0];
      assert n[1..] == l[1..][..k - 1] + [e] + l[1..][k - 1..];
    }
  }
}
