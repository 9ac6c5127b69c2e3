/** `_reorder`: the level-by-level passes of `Config.parse` that turn one
    section's records, in file order, into display order. */
module Reordering {
  import opened Results
  import opened Sequences
  import opened Entries
  import opened Hierarchy

  /** The records of `s` at level `k`, in their order in `s`. */
  function AtLevel(s: seq<Entry>, k: nat): seq<Entry> {
    if s == [] then []
    else (if s[0].level == k then [s[0]] else []) + AtLevel(s[1..], k)
  }

  /** The records of `s` at any other level than `k`, in their order in `s`:
      the `rest` list a pass hands to the next one. */
  function OffLevel(s: seq<Entry>, k: nat): seq<Entry> {
    if s == [] then []
    else (if s[0].level != k then [s[0]] else []) + OffLevel(s[1..], k)
  }

  /** A pass splits its input into the records of its level and the rest,
      losing and duplicating nothing. */
  lemma {:induction false} LevelSplit(s: seq<Entry>, k: nat)
    ensures forall x :: x in AtLevel(s, k) <==> x in s && x.level == k
    ensures forall x :: x in OffLevel(s, k) <==> x in s && x.level != k
    ensures multiset(AtLevel(s, k)) + multiset(OffLevel(s, k)) == multiset(s)
  {
    if s != [] {
      LevelSplit(s[1..], k);
      assert s == [s[0]] + s[1..];
    }
  }

  /** `n` is `out` with `e` inserted at position `k`, and when `e` names a
      parent, a record of that name comes before position `k`. */
  ghost predicate InsertedAt(out: seq<Entry>, e: Entry, k: nat, n: seq<Entry>) {
    && k <= |out|
    && n == out[..k] + [e] + out[k..]
    && (HasParentRef(e) ==> exists j :: 0 <= j < k && out[j].name == e.parent.value)
  }

  /** One step of a pass: a record without a parent reference is appended,
      any other is inserted after its parent. */
  function Place(out: seq<Entry>, e: Entry): (r: Result<seq<Entry>, ParseError>)
    ensures r.Failure? <==> HasParentRef(e) && !Named(out, e.parent.value)
    ensures !HasParentRef(e) ==> r == Success(out + [e])
    ensures r.Failure? ==> r.error == Orphan(e.parent.value, e.name)
    ensures r.Success? ==> IsSubseq(out, r.value)
    ensures r.Success? ==> forall x :: x in r.value <==> x in out || x == e
    ensures r.Success? ==> multiset(r.value) <= multiset(out) + multiset{e}
  {
    if HasParentRef(e) then
      InsertAfterParent(out, e)
    else
      InsertAt(out, |out|, e);
      assert out[..|out|] + [e] + out[|out|..] == out + [e];
      Success(out + [e])
  }

  /** A successful step leaves the list as it was or inserts the record at
      one position, after a record bearing its parent's name if it has one. */
  lemma PlaceShape(out: seq<Entry>, e: Entry)
    requires Place(out, e).Success?
    ensures Place(out, e).value == out || exists k: nat :: InsertedAt(out, e, k, Place(out, e).value)
  {
    var n := Place(out, e).value;
    if !HasParentRef(e) {
      assert out[..|out|] + [e] + out[|out|..] == out + [e];
      assert InsertedAt(out, e, |out|, n);
    } else {
      var p := FindName(out, e.parent.value).value;
      assert n == InsertAfterParent(out, e).value;
      if n != out {
        var k: nat :| RunEndsAt(out, p, k) && n == out[..k] + [e] + out[k..];
        assert out[p].name == e.parent.value;
        assert InsertedAt(out, e, k, n);
      }
    }
  }

  /** Placing the records of `xs` one after the other, stopping at the first
      failure. */
  function PlaceAll(out: seq<Entry>, xs: seq<Entry>): Result<seq<Entry>, ParseError>
    decreases |xs|
  {
    if xs == [] then
      Success(out)
    else
      match Place(out, xs[0])
      case Failure(err) => Failure(err)
      case Success(o) => PlaceAll(o, xs[1..])
  }

  /** Carry on placing `ys` after a step that may have failed. */
  function Continue(r: Result<seq<Entry>, ParseError>, ys: seq<Entry>): Result<seq<Entry>, ParseError> {
    match r
    case Failure(err) => Failure(err)
    case Success(placed) => PlaceAll(placed, ys)
  }

  lemma PlaceAllCons(out: seq<Entry>, x: Entry, ys: seq<Entry>)
    ensures PlaceAll(out, [x] + ys) == Continue(Place(out, x), ys)
  {
    assert ([x] + ys)[0] == x;
    assert ([x] + ys)[1..] == ys;
  }

  /** Placing records keeps every record already placed, in order, and adds
      exactly the placed ones, each at most once. */
  lemma {:induction false} PlaceAllKeeps(out: seq<Entry>, xs: seq<Entry>)
    requires PlaceAll(out, xs).Success?
    ensures IsSubseq(out, PlaceAll(out, xs).value)
    ensures forall x :: x in PlaceAll(out, xs).value <==> x in out || x in xs
    ensures multiset(PlaceAll(out, xs).value) <= multiset(out) + multiset(xs)
    decreases |xs|
  {
    if xs == [] {
      SubseqRefl(out);
    } else {
      var o := Place(out, xs[0]).value;
      PlaceAllKeeps(o, xs[1..]);
      assert xs == [xs[0]] + xs[1..];
      SubseqTrans(out, o, PlaceAll(o, xs[1..]).value);
    }
  }

  /** The outcome of a pass: the placed list, with the records left for the
      next pass alongside, or the first failure. */
  function WithRest(placed: Result<seq<Entry>, ParseError>, rest: seq<Entry>)
    : Result<(seq<Entry>, seq<Entry>), ParseError>
  {
    match placed
    case Failure(err) => Failure(err)
    case Success(o) => Success((o, rest))
  }

  /** The body of `_reorder` for one level: walk the input once, placing the
      records of this level and collecting the others, in order, into `rest`. */
  function Pass(inlist: seq<Entry>, level: nat, out: seq<Entry>, rest: seq<Entry>)
    : (r: Result<(seq<Entry>, seq<Entry>), ParseError>)
    ensures r == WithRest(PlaceAll(out, AtLevel(inlist, level)), rest + OffLevel(inlist, level))
    decreases |inlist|
  {
    if inlist == [] then
      assert rest + [] == rest;
      Success((out, rest))
    else if inlist[0].level == level then
      PlaceAllCons(out, inlist[0], AtLevel(inlist[1..], level));
      assert AtLevel(inlist, level) == [inlist[0]] + AtLevel(inlist[1..], level);
      assert OffLevel(inlist, level) == OffLevel(inlist[1..], level);
      var step := Place(out, inlist[0]);
      if step.Failure? then
        Failure(step.error)
      else
        Pass(inlist[1..], level, step.value, rest)
    else
      assert AtLevel(inlist, level) == AtLevel(inlist[1..], level);
      assert OffLevel(inlist, level) == [inlist[0]] + OffLevel(inlist[1..], level);
      assert rest + OffLevel(inlist, level) == (rest + [inlist[0]]) + OffLevel(inlist[1..], level);
      Pass(inlist[1..], level, out, rest + [inlist[0]])
  }

  /** The deepest level in `s`, 0 for an empty list. */
  function MaxLevel(s: seq<Entry>): (m: nat)
    ensures forall x :: x in s ==> x.level <= m
    ensures s != [] ==> exists i :: 0 <= i < |s| && s[i].level == m
  {
    if s == [] then 0
    else
      var m := MaxLevel(s[1..]);
      assert forall x :: x in s ==> x == s[0] || x in s[1..];
      if s[0].level >= m then s[0].level
      else
        var i :| 0 <= i < |s[1..]| && s[1..][i].level == m;
        assert s[i + 1].level == m;
        m
  }

  /** Levels every record is at or below. */
  ghost predicate AllFrom(s: seq<Entry>, level: nat) {
    forall x :: x in s ==> x.level >= level
  }

  /** How many more passes `_reorder` can make from `level`: the measure
      that shows the recursion ends. */
  function Span(s: seq<Entry>, level: nat): nat
    requires AllFrom(s, level)
  {
    if s == [] then 0 else MaxLevel(s) + 1 - level
  }

  /** The records left for the next pass are all deeper, and there are
      fewer levels left among them. */
  lemma RestShrinks(s: seq<Entry>, level: nat)
    requires AllFrom(s, level)
    requires OffLevel(s, level) != []
    ensures AllFrom(OffLevel(s, level), level + 1)
    ensures Span(OffLevel(s, level), level + 1) < Span(s, level)
  {
    LevelSplit(s, level);
    var rest := OffLevel(s, level);
    var i :| 0 <= i < |rest| && rest[i].level == MaxLevel(rest);
    assert rest[i] in s;
  }

  /** The order in which `_reorder` handles the records: level by level,
      upwards from `level`, each level in input order. */
  function Schedule(s: seq<Entry>, level: nat): seq<Entry>
    requires AllFrom(s, level)
    decreases Span(s, level)
  {
    if OffLevel(s, level) == [] then
      AtLevel(s, level)
    else
      RestShrinks(s, level);
      AtLevel(s, level) + Schedule(OffLevel(s, level), level + 1)
  }

  /** `_reorder`: one pass per level, recursing on the records left over
      until none are. */
  function Reorder(inlist: seq<Entry>, level: nat, out: seq<Entry>): (r: Result<seq<Entry>, ParseError>)
    requires AllFrom(inlist, level)
    ensures r == PlaceAll(out, Schedule(inlist, level))
    decreases Span(inlist, level)
  {
    var passed := Pass(inlist, level, out, []);
    assert [] + OffLevel(inlist, level) == OffLevel(inlist, level);
    if OffLevel(inlist, level) == [] then
      if passed.Failure? then Failure(passed.error) else Success(passed.value.0)
    else
      RestShrinks(inlist, level);
      PlaceAllAppend(out, AtLevel(inlist, level), Schedule(OffLevel(inlist, level), level + 1));
      if passed.Failure? then
        Failure(passed.error)
      else
        Reorder(passed.value.1, level + 1, passed.value.0)
  }

  /** Placing `xs + ys` is placing `xs`, then `ys`. */
  lemma {:induction false} PlaceAllAppend(out: seq<Entry>, xs: seq<Entry>, ys: seq<Entry>)
    ensures PlaceAll(out, xs + ys) == Continue(PlaceAll(out, xs), ys)
    decreases |xs|
  {
    if xs == [] {
      assert xs + ys == ys;
    } else {
      assert xs + ys == [xs[0]] + (xs[1..] + ys);
      PlaceAllCons(out, xs[0], xs[1..] + ys);
      PlaceAllCons(out, xs[0], xs[1..]);
      if Place(out, xs[0]).Success? {
        PlaceAllAppend(Place(out, xs[0]).value, xs[1..], ys);
      }
    }
  }

  /** The reorder `Config.parse` applies to one section's records. */
  function ReorderAll(entries: seq<Entry>): (r: Result<seq<Entry>, ParseError>)
    ensures r == PlaceAll([], Schedule(entries, 0))
  {
    Reorder(entries, 0, [])
  }

  // ---------------------------------------------------------------------
  // The schedule
  // ---------------------------------------------------------------------

  /** Records at level `k` only. */
  lemma {:induction false} AtLevelOnly(s: seq<Entry>, k: nat)
    ensures forall x :: x in AtLevel(s, k) ==> x.level == k
  {
    LevelSplit(s, k);
  }

  /** No record comes after a deeper one. */
  ghost predicate ByLevel(s: seq<Entry>) {
    forall i, j :: 0 <= i < j < |s| ==> s[i].level <= s[j].level
  }

  lemma ByLevelConcat(here: seq<Entry>, later: seq<Entry>, level: nat)
    requires forall x :: x in here ==> x.level == level
    requires AllFrom(later, level + 1) && ByLevel(later)
    ensures ByLevel(here + later)
  {
    var n := here + later;
    forall i, j | 0 <= i < j < |n|
      ensures n[i].level <= n[j].level
    {
      if j < |here| {
        assert n[i] == here[i] && n[j] == here[j];
      } else if i < |here| {
        assert n[i] == here[i] && n[j] == later[j - |here|];
      } else {
        assert n[i] == later[i - |here|] && n[j] == later[j - |here|];
      }
    }
  }

  /** The schedule holds the records of its input, each as often, level by
      level: no record comes after a deeper one. */
  lemma {:induction false} ScheduleFacts(s: seq<Entry>, level: nat)
    requires AllFrom(s, level)
    ensures multiset(Schedule(s, level)) == multiset(s)
    ensures AllFrom(Schedule(s, level), level)
    ensures ByLevel(Schedule(s, level))
    decreases Span(s, level)
  {
    LevelSplit(s, level);
    AtLevelOnly(s, level);
    var here := AtLevel(s, level);
    var rest := OffLevel(s, level);
    if rest != [] {
      RestShrinks(s, level);
      ScheduleFacts(rest, level + 1);
      var later := Schedule(rest, level + 1);
      ByLevelConcat(here, later, level);
      assert forall x :: x in later ==> x in multiset(later);
    } else {
      assert multiset(here) == multiset(s);
    }
  }

  /** The schedule holds exactly the records of its input. */
  lemma ScheduleMembers(s: seq<Entry>)
    ensures forall x :: x in Schedule(s, 0) <==> x in s
  {
    ScheduleFacts(s, 0);
    assert forall x :: x in Schedule(s, 0) <==> x in multiset(Schedule(s, 0));
    assert forall x :: x in s <==> x in multiset(s);
  }

  // ---------------------------------------------------------------------
  // What the reorder keeps
  // ---------------------------------------------------------------------

  /** The reorder loses no record and invents none: the result holds exactly
      the input's records, none more often than in the input. */
  lemma ReorderKeeps(entries: seq<Entry>)
    requires ReorderAll(entries).Success?
    ensures forall x :: x in ReorderAll(entries).value <==> x in entries
    ensures multiset(ReorderAll(entries).value) <= multiset(entries)
  {
    ScheduleFacts(entries, 0);
    ScheduleMembers(entries);
    PlaceAllKeeps([], Schedule(entries, 0));
  }

  /** No record occurs twice. */
  ghost predicate Distinct(s: seq<Entry>) {
    forall i, j :: 0 <= i < j < |s| ==> s[i] != s[j]
  }

  lemma {:induction false} DistinctOnce(s: seq<Entry>)
    requires Distinct(s)
    ensures forall x :: multiset(s)[x] <= 1
  {
    if s != [] {
      assert forall i :: 0 <= i < |s[1..]| ==> s[1..][i] == s[i + 1];
      DistinctOnce(s[1..]);
      assert s == [s[0]] + s[1..];
      assert s[0] !in s[1..];
    }
  }

  /** For records that are pairwise different, the reorder is a
      permutation: the duplicate check that keeps a record out of its own
      list never fires. */
  lemma ReorderPermutation(entries: seq<Entry>)
    requires Distinct(entries)
    requires ReorderAll(entries).Success?
    ensures multiset(ReorderAll(entries).value) == multiset(entries)
    ensures |ReorderAll(entries).value| == |entries|
  {
    var r := ReorderAll(entries).value;
    ReorderKeeps(entries);
    DistinctOnce(entries);
    forall x
      ensures multiset(r)[x] == multiset(entries)[x]
    {
      if x in entries {
        assert x in r;
      }
    }
    assert multiset(r) == multiset(entries);
    assert |r| == |multiset(r)|;
  }

  // ---------------------------------------------------------------------
  // When the reorder succeeds
  // ---------------------------------------------------------------------

  /** Every record of `xs` that names a parent finds a record of that name
      among `out` and the records of `xs` placed before it. */
  ghost predicate Resolvable(out: seq<Entry>, xs: seq<Entry>) {
    forall j :: 0 <= j < |xs| && HasParentRef(xs[j]) ==> Named(out + xs[..j], xs[j].parent.value)
  }

  lemma NamedMembers(a: seq<Entry>, b: seq<Entry>, n: string)
    requires forall x :: x in a <==> x in b
    ensures Named(a, n) <==> Named(b, n)
  {
    if Named(a, n) {
      var i :| 0 <= i < |a| && a[i].name == n;
      assert a[i] in b;
      var j :| 0 <= j < |b| && b[j] == a[i];
    }
    if Named(b, n) {
      var i :| 0 <= i < |b| && b[i].name == n;
      assert b[i] in a;
      var j :| 0 <= j < |a| && a[j] == b[i];
    }
  }

  lemma ShiftNames(out: seq<Entry>, o: seq<Entry>, x: Entry, t: seq<Entry>, j: nat, n: string)
    requires forall y :: y in o <==> y in out || y == x
    requires j <= |t|
    ensures Named(o + t[..j], n) <==> Named(out + ([x] + t)[..j + 1], n)
  {
    assert ([x] + t)[..j + 1] == [x] + t[..j];
    NamedMembers(o + t[..j], out + ([x] + t)[..j + 1], n);
  }

  /** Placing succeeds exactly when every parent reference can be resolved
      at the moment its record is placed. */
  lemma {:induction false} PlaceAllSucceedsIff(out: seq<Entry>, xs: seq<Entry>)
    ensures PlaceAll(out, xs).Success? <==> Resolvable(out, xs)
    decreases |xs|
  {
    if xs != [] {
      var x := xs[0];
      var t := xs[1..];
      assert xs == [x] + t;
      PlaceAllCons(out, x, t);
      if Place(out, x).Success? {
        var o := Place(out, x).value;
        PlaceAllSucceedsIff(o, t);
        ResolvableCons(out, x, t, o);
      } else {
        ResolvableHead(out, x, t);
      }
    }
  }

  /** A record that cannot be placed leaves its list unresolvable. */
  lemma ResolvableHead(out: seq<Entry>, x: Entry, t: seq<Entry>)
    requires Place(out, x).Failure?
    ensures !Resolvable(out, [x] + t)
  {
    assert ([x] + t)[..0] == [];
    assert out + [] == out;
    assert ([x] + t)[0] == x;
  }

  /** After a successful first step, the rest resolves against the new list
      exactly when the whole resolved against the old one. */
  lemma ResolvableCons(out: seq<Entry>, x: Entry, t: seq<Entry>, o: seq<Entry>)
    requires Place(out, x) == Success(o)
    ensures Resolvable(out, [x] + t) <==> Resolvable(o, t)
  {
    if Resolvable(o, t) {
      ResolvableGrow(out, x, t, o);
    }
    if Resolvable(out, [x] + t) {
      ResolvableShrink(out, x, t, o);
    }
  }

  lemma ResolvableGrow(out: seq<Entry>, x: Entry, t: seq<Entry>, o: seq<Entry>)
    requires Place(out, x) == Success(o) && Resolvable(o, t)
    ensures Resolvable(out, [x] + t)
  {
    var xs := [x] + t;
    forall j | 0 <= j < |xs| && HasParentRef(xs[j])
      ensures Named(out + xs[..j], xs[j].parent.value)
    {
      if j > 0 {
        assert t[j - 1] == xs[j];
        ShiftNames(out, o, x, t, j - 1, xs[j].parent.value);
      } else {
        assert out + xs[..0] == out;
      }
    }
  }

  lemma ResolvableShrink(out: seq<Entry>, x: Entry, t: seq<Entry>, o: seq<Entry>)
    requires Place(out, x) == Success(o) && Resolvable(out, [x] + t)
    ensures Resolvable(o, t)
  {
    var xs := [x] + t;
    forall j | 0 <= j < |t| && HasParentRef(t[j])
      ensures Named(o + t[..j], t[j].parent.value)
    {
      assert xs[j + 1] == t[j];
      ShiftNames(out, o, x, t, j, t[j].parent.value);
    }
  }

  /** The reorder succeeds exactly when, in the order of the passes, every
      parent reference is met by an already placed record of that name. */
  lemma ReorderSucceedsIff(entries: seq<Entry>)
    ensures ReorderAll(entries).Success? <==> Resolvable([], Schedule(entries, 0))
  {
    PlaceAllSucceedsIff([], Schedule(entries, 0));
  }

  /** A record whose parent name no record of the section bears makes the
      whole reorder fail. */
  lemma OrphanFails(entries: seq<Entry>, i: nat)
    requires i < |entries| && HasParentRef(entries[i])
    requires !Named(entries, entries[i].parent.value)
    ensures ReorderAll(entries).Failure?
  {
    var sched := Schedule(entries, 0);
    var p := entries[i].parent.value;
    ScheduleMembers(entries);
    PlaceAllSucceedsIff([], sched);
    assert entries[i] in sched;
    var j :| 0 <= j < |sched| && sched[j] == entries[i];
    assert [] + sched[..j] == sched[..j];
    forall k | 0 <= k < j
      ensures sched[..j][k].name != p
    {
      assert sched[k] in entries;
    }
  }

  /** Every record that names a parent has a record of that name at a
      shallower level. */
  ghost predicate ShallowerParents(entries: seq<Entry>) {
    forall i :: 0 <= i < |entries| && HasParentRef(entries[i]) ==>
      exists k :: 0 <= k < |entries| && entries[k].name == entries[i].parent.value
                                    && entries[k].level < entries[i].level
  }

  /** In a list ordered by level, a shallower record comes first. */
  lemma ShallowerFirst(s: seq<Entry>, m: nat, j: nat)
    requires ByLevel(s) && m < |s| && j < |s|
    requires s[m].level < s[j].level
    ensures m < j
  {
  }

  lemma ParentScheduledBefore(entries: seq<Entry>, sched: seq<Entry>, j: nat)
    requires ShallowerParents(entries) && ByLevel(sched)
    requires forall x :: x in sched <==> x in entries
    requires j < |sched| && HasParentRef(sched[j])
    ensures Named(sched[..j], sched[j].parent.value)
  {
    assert sched[j] in entries;
    var i :| 0 <= i < |entries| && entries[i] == sched[j];
    var k :| 0 <= k < |entries| && entries[k].name == entries[i].parent.value
                                && entries[k].level < entries[i].level;
    assert entries[k] in sched;
    var m :| 0 <= m < |sched| && sched[m] == entries[k];
    ShallowerFirst(sched, m, j);
    assert sched[..j][m] == sched[m];
  }

  /** When every parent reference names a record of a shallower level, the
      reorder succeeds: that record is placed in an earlier pass. */
  lemma ShallowerParentsSucceed(entries: seq<Entry>)
    requires ShallowerParents(entries)
    ensures ReorderAll(entries).Success?
  {
    var sched := Schedule(entries, 0);
    ScheduleFacts(entries, 0);
    ScheduleMembers(entries);
    PlaceAllSucceedsIff([], sched);
    forall j | 0 <= j < |sched| && HasParentRef(sched[j])
      ensures Named([] + sched[..j], sched[j].parent.value)
    {
      ParentScheduledBefore(entries, sched, j);
      assert [] + sched[..j] == sched[..j];
    }
  }

  // ---------------------------------------------------------------------
  // Where the reorder puts records
  // ---------------------------------------------------------------------

  /** Every record that names a parent comes after some record bearing that
      name. */
  ghost predicate ParentsPrecede(l: seq<Entry>) {
    forall i :: 0 <= i < |l| && HasParentRef(l[i]) ==>
      exists j :: 0 <= j < i && l[j].name == l[i].parent.value
  }

  lemma InsertKeepsParents(out: seq<Entry>, e: Entry, k: nat, n: seq<Entry>)
    requires ParentsPrecede(out) && InsertedAt(out, e, k, n)
    ensures ParentsPrecede(n)
  {
    forall i | 0 <= i < |n| && HasParentRef(n[i])
      ensures exists j :: 0 <= j < i && n[j].name == n[i].parent.value
    {
      if i < k {
        InsertParentBefore(out, e, k, n, i);
      } else if i == k {
        InsertParentAt(out, e, k, n);
      } else {
        InsertParentAfter(out, e, k, n, i);
      }
    }
  }

  /** A record ahead of the insertion point keeps its parent. */
  lemma InsertParentBefore(out: seq<Entry>, e: Entry, k: nat, n: seq<Entry>, i: nat)
    requires ParentsPrecede(out) && InsertedAt(out, e, k, n)
    requires i < k && HasParentRef(n[i])
    ensures exists j :: 0 <= j < i && n[j].name == n[i].parent.value
  {
    assert n[i] == out[i];
    var j :| 0 <= j < i && out[j].name == out[i].parent.value;
    assert n[j] == out[j];
  }

  /** The inserted record finds its parent ahead of it. */
  lemma InsertParentAt(out: seq<Entry>, e: Entry, k: nat, n: seq<Entry>)
    requires InsertedAt(out, e, k, n) && HasParentRef(n[k])
    ensures exists j :: 0 <= j < k && n[j].name == n[k].parent.value
  {
    assert n[k] == e;
    var j :| 0 <= j < k && out[j].name == e.parent.value;
    assert n[j] == out[j];
  }

  /** A record behind the insertion point moves back by one, and so does
      its parent if that was behind the insertion point too. */
  lemma InsertParentAfter(out: seq<Entry>, e: Entry, k: nat, n: seq<Entry>, i: nat)
    requires ParentsPrecede(out) && InsertedAt(out, e, k, n)
    requires k < i < |n| && HasParentRef(n[i])
    ensures exists j :: 0 <= j < i && n[j].name == n[i].parent.value
  {
    assert n[i] == out[i - 1];
    var j :| 0 <= j < i - 1 && out[j].name == out[i - 1].parent.value;
    if j < k {
      assert n[j] == out[j];
    } else {
      assert n[j + 1] == out[j];
    }
  }

  lemma {:induction false} PlaceAllKeepsParents(out: seq<Entry>, xs: seq<Entry>)
    requires ParentsPrecede(out)
    requires PlaceAll(out, xs).Success?
    ensures ParentsPrecede(PlaceAll(out, xs).value)
    decreases |xs|
  {
    if xs != [] {
      var o := Place(out, xs[0]).value;
      PlaceShape(out, xs[0]);
      if o != out {
        var k: nat :| InsertedAt(out, xs[0], k, o);
        InsertKeepsParents(out, xs[0], k, o);
      }
      PlaceAllKeepsParents(o, xs[1..]);
    }
  }

  /** In the reordered list every child comes after a record bearing its
      parent's name. */
  lemma ReorderParentsPrecede(entries: seq<Entry>)
    requires ReorderAll(entries).Success?
    ensures ParentsPrecede(ReorderAll(entries).value)
  {
    PlaceAllKeepsParents([], Schedule(entries, 0));
  }

  lemma {:induction false} AtLevelConcat(a: seq<Entry>, b: seq<Entry>, k: nat)
    ensures AtLevel(a + b, k) == AtLevel(a, k) + AtLevel(b, k)
  {
    if a != [] {
      AtLevelConcat(a[1..], b, k);
      assert (a + b)[1..] == a[1..] + b;
    } else {
      assert a + b == b;
    }
  }

  lemma {:induction false} AtLevelTwice(s: seq<Entry>, k: nat)
    ensures AtLevel(AtLevel(s, k), k) == AtLevel(s, k)
  {
    if s != [] {
      AtLevelTwice(s[1..], k);
      AtLevelConcat(if s[0].level == k then [s[0]] else [], AtLevel(s[1..], k), k);
    }
  }

  /** Records without a parent reference are appended in their order. */
  lemma {:induction false} PlaceAllAppends(out: seq<Entry>, xs: seq<Entry>)
    requires forall x :: x in xs ==> !HasParentRef(x)
    ensures PlaceAll(out, xs) == Success(out + xs)
    decreases |xs|
  {
    if xs != [] {
      assert xs[0] in xs;
      assert forall x :: x in xs[1..] ==> x in xs;
      PlaceAppends(out, xs[0]);
      PlaceAllAppends(out + [xs[0]], xs[1..]);
      AppendShift(out, xs[0], xs[1..], xs);
    } else {
      assert out + xs == out;
    }
  }

  lemma InsertKeepsLevel(out: seq<Entry>, e: Entry, m: nat, k: nat)
    requires m <= |out| && e.level != k
    ensures AtLevel(out[..m] + [e] + out[m..], k) == AtLevel(out, k)
  {
    AtLevelConcat(out[..m] + [e], out[m..], k);
    AtLevelConcat(out[..m], [e], k);
    AtLevelConcat(out[..m], out[m..], k);
    assert out == out[..m] + out[m..];
    assert AtLevel([e], k) == [];
  }

  /** Placing a record of another level leaves the records of level `k`
      as they were, in the same order. */
  lemma PlaceKeepsLevel(out: seq<Entry>, e: Entry, k: nat)
    requires e.level != k && Place(out, e).Success?
    ensures AtLevel(Place(out, e).value, k) == AtLevel(out, k)
  {
    var n := Place(out, e).value;
    PlaceShape(out, e);
    if n != out {
      var m: nat :| InsertedAt(out, e, m, n);
      InsertKeepsLevel(out, e, m, k);
    }
  }

  lemma {:induction false} PlaceAllKeepsLevel(out: seq<Entry>, xs: seq<Entry>, k: nat)
    requires forall x :: x in xs ==> x.level != k
    requires PlaceAll(out, xs).Success?
    ensures AtLevel(PlaceAll(out, xs).value, k) == AtLevel(out, k)
    decreases |xs|
  {
    if xs != [] {
      assert xs[0] in xs;
      assert forall x :: x in xs[1..] ==> x in xs;
      PlaceKeepsLevel(out, xs[0], k);
      PlaceAllKeepsLevel(Place(out, xs[0]).value, xs[1..], k);
    }
  }

  /** The top-level records keep their input order: they are all appended by
      the first pass, and every later pass only inserts deeper records. */
  lemma RootsKeepOrder(entries: seq<Entry>)
    requires forall i :: 0 <= i < |entries| ==> WellFormed(entries[i])
    requires ReorderAll(entries).Success?
    ensures AtLevel(ReorderAll(entries).value, 0) == AtLevel(entries, 0)
  {
    var here := AtLevel(entries, 0);
    var rest := OffLevel(entries, 0);
    LevelSplit(entries, 0);
    AtLevelOnly(entries, 0);
    forall x | x in here
      ensures !HasParentRef(x)
    {
      var i :| 0 <= i < |entries| && entries[i] == x;
      assert WellFormed(entries[i]);
    }
    PlaceAllAppends([], here);
    assert [] + here == here;
    AtLevelTwice(entries, 0);
    if rest != [] {
      RestShrinks(entries, 0);
      var later := Schedule(rest, 1);
      ScheduleFacts(rest, 1);
      PlaceAllAppend([], here, later);
      PlaceAllKeepsLevel(here, later, 0);
    }
  }

  /** The records of level `k` without a parent reference, in their order
      in `s`: the ones a pass appends. */
  function Unlinked(s: seq<Entry>, k: nat): seq<Entry> {
    if s == [] then []
    else (if s[0].level == k && !HasParentRef(s[0]) then [s[0]] else []) + Unlinked(s[1..], k)
  }

  lemma {:induction false} UnlinkedConcat(a: seq<Entry>, b: seq<Entry>, k: nat)
    ensures Unlinked(a + b, k) == Unlinked(a, k) + Unlinked(b, k)
  {
    if a != [] {
      UnlinkedConcat(a[1..], b, k);
      assert (a + b)[1..] == a[1..] + b;
    } else {
      assert a + b == b;
    }
  }

  lemma {:induction false} UnlinkedLevels(s: seq<Entry>, level: nat, k: nat)
    ensures Unlinked(AtLevel(s, level), k) == if level == k then Unlinked(s, k) else []
    ensures Unlinked(OffLevel(s, level), k) == if level == k then [] else Unlinked(s, k)
  {
    if s != [] {
      UnlinkedLevels(s[1..], level, k);
      var h := if s[0].level == level then [s[0]] else [];
      var g := if s[0].level != level then [s[0]] else [];
      UnlinkedConcat(h, AtLevel(s[1..], level), k);
      UnlinkedConcat(g, OffLevel(s[1..], level), k);
      assert Unlinked([s[0]], k) == if s[0].level == k && !HasParentRef(s[0]) then [s[0]] else [] by {
        assert [s[0]][1..] == [];
      }
    }
  }

  /** The schedule keeps the appended records of each level in input order. */
  lemma {:induction false} ScheduleUnlinked(s: seq<Entry>, level: nat, k: nat)
    requires AllFrom(s, level)
    ensures Unlinked(Schedule(s, level), k) == Unlinked(s, k)
    decreases Span(s, level)
  {
    UnlinkedLevels(s, level, k);
    var rest := OffLevel(s, level);
    if rest != [] {
      RestShrinks(s, level);
      ScheduleUnlinked(rest, level + 1, k);
      UnlinkedConcat(AtLevel(s, level), Schedule(rest, level + 1), k);
    } else if level != k {
      assert Unlinked(rest, k) == [];
    }
  }

  lemma InsertKeepsUnlinked(out: seq<Entry>, e: Entry, m: nat, k: nat)
    requires m <= |out| && HasParentRef(e)
    ensures Unlinked(out[..m] + [e] + out[m..], k) == Unlinked(out, k)
  {
    UnlinkedConcat(out[..m] + [e], out[m..], k);
    UnlinkedConcat(out[..m], [e], k);
    UnlinkedConcat(out[..m], out[m..], k);
    assert out == out[..m] + out[m..];
    assert [e][1..] == [];
  }

  /** A step adds the record to the appended ones exactly when it has no
      parent reference. */
  lemma PlaceUnlinked(out: seq<Entry>, e: Entry, k: nat)
    requires Place(out, e).Success?
    ensures Unlinked(Place(out, e).value, k) == Unlinked(out, k) + Unlinked([e], k)
  {
    var n := Place(out, e).value;
    if HasParentRef(e) {
      assert [e][1..] == [];
      assert Unlinked([e], k) == [];
      PlaceShape(out, e);
      if n != out {
        var m: nat :| InsertedAt(out, e, m, n);
        InsertKeepsUnlinked(out, e, m, k);
      }
    } else {
      UnlinkedConcat(out, [e], k);
    }
  }

  lemma {:induction false} UnlinkedStep(out: seq<Entry>, o: seq<Entry>, x: Entry, t: seq<Entry>, res: seq<Entry>, k: nat)
    requires Unlinked(o, k) == Unlinked(out, k) + Unlinked([x], k)
    requires Unlinked(res, k) == Unlinked(o, k) + Unlinked(t, k)
    ensures Unlinked(res, k) == Unlinked(out, k) + Unlinked([x] + t, k)
  {
    UnlinkedConcat([x], t, k);
    var a, b, c := Unlinked(out, k), Unlinked([x], k), Unlinked(t, k);
    assert (a + b) + c == a + (b + c);
  }

  lemma {:induction false} PlaceAllUnlinked(out: seq<Entry>, xs: seq<Entry>, k: nat)
    requires PlaceAll(out, xs).Success?
    ensures Unlinked(PlaceAll(out, xs).value, k) == Unlinked(out, k) + Unlinked(xs, k)
    decreases |xs|
  {
    if xs != [] {
      var o := Place(out, xs[0]).value;
      PlaceUnlinked(out, xs[0], k);
      PlaceAllUnlinked(o, xs[1..], k);
      UnlinkedStep(out, o, xs[0], xs[1..], PlaceAll(o, xs[1..]).value, k);
      assert [xs[0]] + xs[1..] == xs;
    } else {
      assert Unlinked(out, k) + [] == Unlinked(out, k);
    }
  }

  /** Records without a parent reference (no parent, or an empty parent
      name) keep their relative input order among the records of their
      level. */
  lemma UnlinkedKeepOrder(entries: seq<Entry>, k: nat)
    requires ReorderAll(entries).Success?
    ensures Unlinked(ReorderAll(entries).value, k) == Unlinked(entries, k)
  {
    PlaceAllUnlinked([], Schedule(entries, 0), k);
    ScheduleUnlinked(entries, 0, k);
  }

  // ---------------------------------------------------------------------
  // Examples
  // ---------------------------------------------------------------------

  /** A record with the given place in the hierarchy and fixed other fields. */
  function Rec(name: string, parent: Option<string>, level: nat): Entry {
    Entry(name, ["root"], "10.0.0.1", "", parent, level, false)
  }

  /** A child listed after an unrelated root moves up behind its parent, and
      a grandchild behind the child. */
  lemma ExampleChildrenFollowParents()
    ensures var a := Rec("a", None, 0);
            var b := Rec("b", Some("a"), 1);
            var c := Rec("c", None, 0);
            var d := Rec("d", Some("b"), 2);
            ReorderAll([a, c, d, b]) == Success([a, b, d, c])
  {
    var a := Rec("a", None, 0);
    var b := Rec("b", Some("a"), 1);
    var c := Rec("c", None, 0);
    var d := Rec("d", Some("b"), 2);
    assert Family(a, b, c, d);
    ExampleFamily(a, b, c, d);
  }

  /** The example over any records with the example's names, parents and
      levels. */
  lemma ExampleFamily(a: Entry, b: Entry, c: Entry, d: Entry)
    requires Family(a, b, c, d)
    ensures ReorderAll([a, c, d, b]) == Success([a, b, d, c])
  {
    ExampleSchedule(a, b, c, d);
    ExampleRunTail(a, b, c, d);
    assert [a, c] + [b, d] == [a, c, b, d];
    RootsThenRun([a, c, d, b], a, c, [b, d], Success([a, b, d, c]));
  }

  /** A schedule that opens with two roots reorders to what placing the
      rest after them gives. */
  lemma RootsThenRun(entries: seq<Entry>, a: Entry, c: Entry, ys: seq<Entry>, r: Result<seq<Entry>, ParseError>)
    requires Schedule(entries, 0) == [a, c] + ys
    requires !HasParentRef(a) && !HasParentRef(c) && PlaceAll([a, c], ys) == r
    ensures ReorderAll(entries) == r
  {
    RootsFirst(a, c, ys, r);
  }

  /** The records of the example: roots `a` and `c`, `b` below `a`, `d`
      below `b`. */
  predicate Family(a: Entry, b: Entry, c: Entry, d: Entry) {
    && a.name == "a" && a.parent == None && a.level == 0
    && b.name == "b" && b.parent == Some("a") && b.level == 1
    && c.name == "c" && c.parent == None && c.level == 0
    && d.name == "d" && d.parent == Some("b") && d.level == 2
  }

  /** Two roots open a run by being appended, then the run goes on. */
  lemma RootsFirst(a: Entry, c: Entry, ys: seq<Entry>, r: Result<seq<Entry>, ParseError>)
    requires !HasParentRef(a) && !HasParentRef(c) && PlaceAll([a, c], ys) == r
    ensures PlaceAll([], [a, c] + ys) == r
  {
    PlaceAllAppends([], [a, c]);
    assert [] + [a, c] == [a, c];
    PlaceAllAppend([], [a, c], ys);
  }

  lemma ExampleRunTail(a: Entry, b: Entry, c: Entry, d: Entry)
    requires Family(a, b, c, d)
    ensures PlaceAll([a, c], [b, d]) == Success([a, b, d, c])
  {
    ExamplePlaceChild(a, b, c, d);
    ExamplePlaceGrandchild(a, b, c, d);
    TwoSteps([a, c], b, [a, b, c], d, [a, b, d, c]);
  }

  /** Two successful steps make a run of two. */
  lemma TwoSteps(l0: seq<Entry>, x: Entry, l1: seq<Entry>, y: Entry, l2: seq<Entry>)
    requires Place(l0, x) == Success(l1) && Place(l1, y) == Success(l2)
    ensures PlaceAll(l0, [x, y]) == Success(l2)
  {
    PlaceAllLast(l1, y, l2);
    PlaceAllStep(l0, x, [y], l1, Success(l2));
    assert [x] + [y] == [x, y];
  }

  /** One step of a run, with the rest of the run already known. */
  lemma PlaceAllStep(out: seq<Entry>, x: Entry, ys: seq<Entry>, o: seq<Entry>, r: Result<seq<Entry>, ParseError>)
    requires Place(out, x) == Success(o) && PlaceAll(o, ys) == r
    ensures PlaceAll(out, [x] + ys) == r
  {
    PlaceAllCons(out, x, ys);
  }

  /** The last step of a run. */
  lemma PlaceAllLast(out: seq<Entry>, x: Entry, o: seq<Entry>)
    requires Place(out, x) == Success(o)
    ensures PlaceAll(out, [x]) == Success(o)
  {
    PlaceAllCons(out, x, []);
    assert [x] + [] == [x];
  }

  lemma Single(x: Entry, k: nat)
    ensures AtLevel([x], k) == if x.level == k then [x] else []
    ensures OffLevel([x], k) == if x.level == k then [] else [x]
  {
    assert [x][1..] == [];
    assert [x] + [] == [x];
  }

  lemma ExampleSchedule(a: Entry, b: Entry, c: Entry, d: Entry)
    requires Family(a, b, c, d)
    ensures Schedule([a, c, d, b], 0) == [a, c, b, d]
  {
    ExampleFirstPass(a, b, c, d);
    ExampleLaterPasses(b, d);
  }

  lemma ExampleFirstPass(a: Entry, b: Entry, c: Entry, d: Entry)
    requires a.level == 0 && b.level == 1 && c.level == 0 && d.level == 2
    ensures AtLevel([a, c, d, b], 0) == [a, c] && OffLevel([a, c, d, b], 0) == [d, b]
  {
    Single(b, 0);
    assert [a, c, d, b][1..] == [c, d, b] && [c, d, b][1..] == [d, b];
    assert [d, b][1..] == [b];
    assert AtLevel([d, b], 0) == [] && OffLevel([d, b], 0) == [d, b];
    assert AtLevel([c, d, b], 0) == [c] && OffLevel([c, d, b], 0) == [d, b];
  }

  lemma ExampleLaterPasses(b: Entry, d: Entry)
    requires b.level == 1 && d.level == 2
    ensures Schedule([d, b], 1) == [b, d]
  {
    Single(b, 1);
    Single(d, 2);
    assert [d, b][1..] == [b];
    assert AtLevel([d, b], 1) == [b] && OffLevel([d, b], 1) == [d];
    assert Schedule([d], 2) == [d];
  }

  /** A record with a parent reference lands at the end of its parent's
      run when that run stops before the end of the list. */
  lemma PlaceInside(l: seq<Entry>, e: Entry, p: nat, k: nat)
    requires HasParentRef(e) && FindName(l, e.parent.value) == Some(p)
    requires RunEndsAt(l, p, k) && k < |l|
    ensures Place(l, e) == Success(l[..k] + [e] + l[k..])
  {
    RunEndUnique(l, p, RunEnd(l, p, p + 1), k);
  }

  /** A record without a parent reference is appended. */
  lemma PlaceAppends(l: seq<Entry>, e: Entry)
    requires !HasParentRef(e)
    ensures Place(l, e) == Success(l + [e])
  {
  }

  lemma ExamplePlaceChild(a: Entry, b: Entry, c: Entry, d: Entry)
    requires Family(a, b, c, d)
    ensures Place([a, c], b) == Success([a, b, c])
  {
    var l: seq<Entry> := [a, c];
    assert l[..1] + [b] + l[1..] == [a, b, c];
    assert FindName(l, "a") == Some(0);
    PlaceInside(l, b, 0, 1);
  }

  lemma ExamplePlaceGrandchild(a: Entry, b: Entry, c: Entry, d: Entry)
    requires Family(a, b, c, d)
    ensures Place([a, b, c], d) == Success([a, b, d, c])
  {
    var l: seq<Entry> := [a, b, c];
    assert l[..2] + [d] + l[2..] == [a, b, d, c];
    assert FindName(l, "b") == Some(1);
    PlaceInside(l, d, 1, 2);
  }

  /** A record whose parent's run reaches the end of the list is appended,
      unless an equal record is already there. */
  lemma PlaceAtEnd(l: seq<Entry>, e: Entry, p: nat)
    requires HasParentRef(e) && FindName(l, e.parent.value) == Some(p)
    requires RunEndsAt(l, p, |l|)
    ensures Place(l, e) == Success(if e in l then l else l + [e])
  {
    RunEndUnique(l, p, RunEnd(l, p, p + 1), |l|);
  }

  /** A child whose parent no record bears fails with the parent's and the
      child's names. */
  lemma ExampleOrphan()
    ensures ReorderAll([Rec("b", Some("a"), 1)]) == Failure(Orphan("a", "b"))
  {
    var b := Rec("b", Some("a"), 1);
    Single(b, 0);
    Single(b, 1);
    assert Schedule([b], 1) == [b];
    assert Schedule([b], 0) == [b];
    assert FindName([], "a") == None;
    PlaceAllCons([], b, []);
  }

  /** A record below the top level whose parent name is empty is appended,
      not kept in its input position: here it moves behind a root listed
      after it. */
  lemma ExampleEmptyParent()
    ensures var e := Rec("e", Some(""), 1);
            var a := Rec("a", None, 0);
            ReorderAll([e, a]) == Success([a, e])
  {
    var e := Rec("e", Some(""), 1);
    var a := Rec("a", None, 0);
    Single(e, 0);
    Single(e, 1);
    Single(a, 0);
    assert [e, a][1..] == [a];
    assert AtLevel([e, a], 0) == [a] && OffLevel([e, a], 0) == [e];
    assert Schedule([e], 1) == [e];
    assert Schedule([e, a], 0) == [a, e];
    PlaceAllAppends([], [a, e]);
    assert [] + [a, e] == [a, e];
  }

  /** A second copy of a child whose parent's run reaches the end of the
      list is dropped: the membership check before appending sees the
      first copy. */
  lemma ExampleDuplicateDropped()
    ensures var a := Rec("a", None, 0);
            var b := Rec("b", Some("a"), 1);
            ReorderAll([a, b, b]) == Success([a, b])
  {
    var a := Rec("a", None, 0);
    var b := Rec("b", Some("a"), 1);
    Single(a, 0);
    Single(b, 0);
    Single(b, 1);
    assert [a, b, b][1..] == [b, b] && [b, b][1..] == [b];
    assert AtLevel([b, b], 0) == [] && OffLevel([b, b], 0) == [b, b];
    assert AtLevel([a, b, b], 0) == [a] && OffLevel([a, b, b], 0) == [b, b];
    assert AtLevel([b, b], 1) == [b, b] && OffLevel([b, b], 1) == [];
    assert Schedule([b, b], 1) == [b, b];
    assert Schedule([a, b, b], 0) == [a, b, b];
    ExampleDuplicateSteps(a, b);
    PlaceAllCons([a, b], b, []);
    PlaceAllCons([a], b, [b]);
    PlaceAllCons([], a, [b, b]);
    assert [a] + [b, b] == [a, b, b];
  }

  lemma ExampleDuplicateSteps(a: Entry, b: Entry)
    requires a.name == "a" && a.parent == None && a.level == 0
    requires b.name == "b" && b.parent == Some("a") && b.level == 1
    ensures Place([], a) == Success([a])
    ensures Place([a], b) == Success([a, b])
    ensures Place([a, b], b) == Success([a, b])
  {
    PlaceAppends([], a);
    assert [] + [a] == [a];
    ExampleChildAppended(a, b);
    ExampleCopyDropped(a, b);
  }

  lemma ExampleChildAppended(a: Entry, b: Entry)
    requires a.name == "a" && a.level == 0
    requires b.parent == Some("a") && b.level == 1
    ensures Place([a], b) == Success([a, b])
  {
    assert FindName([a], "a") == Some(0);
    assert b !in [a];
    PlaceAtEnd([a], b, 0);
    assert [a] + [b] == [a, b];
  }

  lemma ExampleCopyDropped(a: Entry, b: Entry)
    requires a.name == "a" && a.level == 0
    requires b.parent == Some("a") && b.level == 1
    ensures Place([a, b], b) == Success([a, b])
  {
    assert FindName([a, b], "a") == Some(0);
    assert b in [a, b];
    PlaceAtEnd([a, b], b, 0);
  }

  /** Children keyed by their immediate parent only come out in reverse
      file order: a later sibling stops at the first record no deeper than
      the parent, which is the earlier sibling, and goes in front of it.
      So reordering a reordered list need not give it back. */
  lemma ExampleSiblingsFlip()
    ensures var a := Rec("a", None, 0);
            var p := Rec("P", Some("a"), 1);
            var s1 := Rec("s1", Some("P"), 1);
            var s2 := Rec("s2", Some("P"), 1);
            && ReorderAll([a, p, s1, s2]) == Success([a, p, s2, s1])
            && ReorderAll([a, p, s2, s1]) == Success([a, p, s1, s2])
  {
    var a := Rec("a", None, 0);
    var p := Rec("P", Some("a"), 1);
    var s1 := Rec("s1", Some("P"), 1);
    var s2 := Rec("s2", Some("P"), 1);
    assert Siblings(a, p, s1, s2) && Siblings(a, p, s2, s1);
    SiblingsReversed(a, p, s1, s2);
    SiblingsReversed(a, p, s2, s1);
  }

  /** A root `a`, a record named `P` below it, and two records below `P`
      written at level 1, as the keys `a`, `a -> P`, `P -> u`, `P -> v`
      give them. */
  predicate Siblings(a: Entry, p: Entry, u: Entry, v: Entry) {
    && a.name == "a" && a.parent == None && a.level == 0
    && p.name == "P" && p.parent == Some("a") && p.level == 1
    && u.parent == Some("P") && u.level == 1
    && v.parent == Some("P") && v.level == 1
  }

  /** Two siblings that follow their parent in the input swap places: the
      parent and the first sibling are appended, the second sibling goes in
      front of the first. */
  lemma SiblingsReversed(a: Entry, p: Entry, u: Entry, v: Entry)
    requires Siblings(a, p, u, v)
    ensures ReorderAll([a, p, u, v]) == Success([a, p, v, u])
  {
    SiblingsSchedule(a, p, u, v);
    ExampleChildAppended(a, p);
    SiblingsFirst(a, p, u);
    SiblingsSecond(a, p, u, v);
    RootThenThree([a, p, u, v], a, p, u, v, [a, p], [a, p, u], [a, p, v, u]);
  }

  /** The input is already in level-major order. */
  lemma SiblingsSchedule(a: Entry, p: Entry, u: Entry, v: Entry)
    requires a.level == 0 && p.level == 1 && u.level == 1 && v.level == 1
    ensures Schedule([a, p, u, v], 0) == [a] + [p, u, v]
  {
    Single(v, 0);
    Single(v, 1);
    assert [a, p, u, v][1..] == [p, u, v] && [p, u, v][1..] == [u, v] && [u, v][1..] == [v];
    assert AtLevel([u, v], 0) == [] && OffLevel([u, v], 0) == [u, v];
    assert AtLevel([p, u, v], 0) == [] && OffLevel([p, u, v], 0) == [p, u, v];
    assert AtLevel([a, p, u, v], 0) == [a] && OffLevel([a, p, u, v], 0) == [p, u, v];
    assert AtLevel([u, v], 1) == [u, v] && OffLevel([u, v], 1) == [];
    assert AtLevel([p, u, v], 1) == [p, u, v] && OffLevel([p, u, v], 1) == [];
    assert Schedule([p, u, v], 1) == [p, u, v];
  }

  /** A schedule of one root and then three records, each placed with a
      known outcome. */
  lemma RootThenThree(entries: seq<Entry>, a: Entry, x: Entry, y: Entry, z: Entry,
                      l1: seq<Entry>, l2: seq<Entry>, l3: seq<Entry>)
    requires Schedule(entries, 0) == [a] + [x, y, z] && a.parent == None
    requires Place([a], x) == Success(l1) && Place(l1, y) == Success(l2) && Place(l2, z) == Success(l3)
    ensures ReorderAll(entries) == Success(l3)
  {
    TwoSteps(l1, y, l2, z, l3);
    PlaceAllStep([a], x, [y, z], l1, Success(l3));
    assert [x] + [y, z] == [x, y, z];
    RootThenRun(entries, a, [x, y, z], Success(l3));
  }

  lemma SiblingsFirst(a: Entry, p: Entry, u: Entry)
    requires a.name == "a" && a.parent == None
    requires p.name == "P" && p.parent == Some("a") && p.level == 1
    requires u.parent == Some("P")
    ensures Place([a, p], u) == Success([a, p, u])
  {
    assert FindName([a, p], "P") == Some(1);
    assert u !in [a, p];
    PlaceAtEnd([a, p], u, 1);
    assert [a, p] + [u] == [a, p, u];
  }

  lemma SiblingsSecond(a: Entry, p: Entry, u: Entry, v: Entry)
    requires a.name == "a"
    requires p.name == "P" && p.level == 1
    requires u.level == 1 && v.parent == Some("P")
    ensures Place([a, p, u], v) == Success([a, p, v, u])
  {
    var l: seq<Entry> := [a, p, u];
    assert l[..2] + [v] + l[2..] == [a, p, v, u];
    assert FindName(l, "P") == Some(1);
    PlaceInside(l, v, 1, 2);
  }

  /** A schedule that opens with a root reorders to what placing the rest
      after it gives. */
  lemma RootThenRun(entries: seq<Entry>, a: Entry, ys: seq<Entry>, r: Result<seq<Entry>, ParseError>)
    requires Schedule(entries, 0) == [a] + ys
    requires !HasParentRef(a) && PlaceAll([a], ys) == r
    ensures ReorderAll(entries) == r
  {
    PlaceAllAppends([], [a]);
    assert [] + [a] == [a];
    PlaceAllAppend([], [a], ys);
  }
}
