/** The section loop of `Config.parse`: every section's options become
    records, the records are reordered, and the result is one group per
    section, with the reserved `DEFAULT` and `_global` sections dropped
    when they hold nothing. */
module Groups {
  import opened Results
  import opened Sequences
  import opened Entries
  import opened Hierarchy
  import opened Reordering

  /** A section as the configuration reader hands it over: its name and its
      `key = value` options in file order. */
  datatype Section = Section(name: string, options: seq<(string, string)>)

  /** One entry of the ordered group map: a section name and its hosts in
      display order. */
  datatype Group = Group(name: string, hosts: seq<Entry>)

  /** The section holding the defaults every other section inherits. */
  const Default: string := "DEFAULT"

  /** The section prepended to the file so that options before the first
      header have a home. */
  const Global: string := "_global"

  // ---------------------------------------------------------------------
  // One section
  // ---------------------------------------------------------------------

  function ParseOption(kv: (string, string)): Result<Entry, ParseError> {
    ParseValue(kv.0, kv.1)
  }

  /** Apply `f` to every element in order; the first failure stops the
      walk and is the result. */
  function MapAll<A, B, E>(f: A -> Result<B, E>, xs: seq<A>): (r: Result<seq<B>, E>)
    ensures r.Success? <==> forall i :: 0 <= i < |xs| ==> f(xs[i]).Success?
    ensures r.Success? ==> |r.value| == |xs|
    ensures r.Success? ==> forall i :: 0 <= i < |xs| ==> r.value[i] == f(xs[i]).value
    ensures r.Failure? ==> exists i :: FirstFailure(f, xs, i) && r.error == f(xs[i]).error
  {
    if xs == [] then
      Success([])
    else
      var first := f(xs[0]);
      if first.Failure? then
        assert FirstFailure(f, xs, 0);
        Failure(first.error)
      else
        var rest := MapAll(f, xs[1..]);
        assert forall i :: 0 < i < |xs| ==> xs[i] == xs[1..][i - 1];
        if rest.Failure? then
          FirstFailureShift(f, xs, rest.error);
          Failure(rest.error)
        else
          Success([first.value] + rest.value)
  }

  /** Element `i` is the first one `f` fails on. */
  ghost predicate FirstFailure<A, B, E>(f: A -> Result<B, E>, xs: seq<A>, i: int) {
    && 0 <= i < |xs|
    && f(xs[i]).Failure?
    && forall j :: 0 <= j < i ==> f(xs[j]).Success?
  }

  lemma FirstFailureShift<A, B, E>(f: A -> Result<B, E>, xs: seq<A>, err: E)
    requires xs != [] && f(xs[0]).Success?
    requires exists i :: FirstFailure(f, xs[1..], i) && err == f(xs[1..][i]).error
    ensures exists i :: FirstFailure(f, xs, i) && err == f(xs[i]).error
  {
    var i :| FirstFailure(f, xs[1..], i) && err == f(xs[1..][i]).error;
    assert forall j :: 0 < j < |xs| ==> xs[j] == xs[1..][j - 1];
    assert FirstFailure(f, xs, i + 1);
  }

  /** Parse the options of a section in order; the first option that does
      not parse stops the whole section. */
  function ParseOptions(opts: seq<(string, string)>): Result<seq<Entry>, ParseError> {
    MapAll(ParseOption, opts)
  }

  /** The hosts of one section: its parsed options, reordered. */
  function SectionHosts(s: Section): Result<seq<Entry>, ParseError> {
    var parsed := ParseOptions(s.options);
    if parsed.Failure? then Failure(parsed.error) else ReorderAll(parsed.value)
  }

  /** A section's hosts are exactly the records its options parse to, each
      at most as often as it was parsed. */
  lemma SectionHostsKeep(s: Section)
    requires SectionHosts(s).Success?
    ensures ParseOptions(s.options).Success?
    ensures forall x :: x in SectionHosts(s).value <==> x in ParseOptions(s.options).value
    ensures multiset(SectionHosts(s).value) <= multiset(ParseOptions(s.options).value)
  {
    var parsed := ParseOptions(s.options).value;
    assert SectionHosts(s) == ReorderAll(parsed);
    ReorderKeeps(parsed);
  }

  // ---------------------------------------------------------------------
  // The ordered group map
  // ---------------------------------------------------------------------

  /** The hosts of the first group named `name`. */
  function Lookup(gs: seq<Group>, name: string): (r: Option<seq<Entry>>)
    ensures r.None? <==> forall i :: 0 <= i < |gs| ==> gs[i].name != name
    ensures r.Some? ==> exists i :: 0 <= i < |gs| && gs[i] == Group(name, r.value)
  {
    if gs == [] then
      None
    else if gs[0].name == name then
      Some(gs[0].hosts)
    else
      var r := Lookup(gs[1..], name);
      assert forall i :: 0 < i < |gs| ==> gs[i] == gs[1..][i - 1];
      if r.Some? then
        var i :| 0 <= i < |gs[1..]| && gs[1..][i] == Group(name, r.value);
        assert gs[i + 1] == Group(name, r.value);
        r
      else
        r
  }

  /** Group names occur once each. */
  ghost predicate UniqueNames(gs: seq<Group>) {
    forall i, j :: 0 <= i < j < |gs| ==> gs[i].name != gs[j].name
  }

  /** `groups[name] = hosts` on an ordered map: a new name goes to the end,
      an existing one keeps its place and takes the new hosts. */
  function Assign(gs: seq<Group>, name: string, hosts: seq<Entry>): (r: seq<Group>)
    ensures Lookup(gs, name).None? ==> r == gs + [Group(name, hosts)]
    ensures Lookup(gs, name).Some? ==> |r| == |gs| && forall j :: 0 <= j < |gs| ==> r[j].name == gs[j].name
    ensures Lookup(r, name) == Some(hosts)
    ensures forall n :: n != name ==> Lookup(r, n) == Lookup(gs, n)
  {
    if gs == [] then
      [Group(name, hosts)]
    else if gs[0].name == name then
      [Group(name, hosts)] + gs[1..]
    else
      var r := [gs[0]] + Assign(gs[1..], name, hosts);
      assert r[1..] == Assign(gs[1..], name, hosts);
      r
  }

  /** Every group but those named `name` with no hosts, order kept. */
  function Prune(gs: seq<Group>, name: string): (r: seq<Group>)
    ensures forall g :: g in r <==> g in gs && !(g.name == name && g.hosts == [])
    ensures IsSubseq(r, gs)
  {
    if gs == [] then
      []
    else if gs[0].name == name && gs[0].hosts == [] then
      var r := Prune(gs[1..], name);
      SubseqSkip(r, gs);
      r
    else
      var r := Prune(gs[1..], name);
      assert ([gs[0]] + r)[1..] == r;
      [gs[0]] + r
  }

  lemma SubseqSkip<T>(a: seq<T>, b: seq<T>)
    requires b != [] && IsSubseq(a, b[1..])
    ensures IsSubseq(a, b)
  {
  }

  /** The removal step after the loop: look the reserved section up (the
      lookup fails when it is missing) and delete it when its list is
      empty. */
  function DropIfEmpty(gs: seq<Group>, name: string): (r: Result<seq<Group>, ParseError>)
    ensures r.Failure? <==> forall i :: 0 <= i < |gs| ==> gs[i].name != name
    ensures r.Failure? ==> r.error == MissingSection(name)
  {
    match Lookup(gs, name)
    case None => Failure(MissingSection(name))
    case Some(hosts) => Success(if hosts == [] then Remove(gs, name) else gs)
  }

  /** Every group but those named `name`. */
  function Remove(gs: seq<Group>, name: string): seq<Group> {
    if gs == [] then []
    else (if gs[0].name == name then [] else [gs[0]]) + Remove(gs[1..], name)
  }

  // ---------------------------------------------------------------------
  // The loop
  // ---------------------------------------------------------------------

  /** The loop over the sections, in order, with `hostsOf` the work done
      for one section; a section that fails stops the whole parse. */
  function BuildGroups(hostsOf: Section -> Result<seq<Entry>, ParseError>, gs: seq<Group>, sections: seq<Section>)
    : Result<seq<Group>, ParseError>
    decreases |sections|
  {
    if sections == [] then
      Success(gs)
    else
      var hosts := hostsOf(sections[0]);
      if hosts.Failure? then
        Failure(hosts.error)
      else
        BuildGroups(hostsOf, Assign(gs, sections[0].name, hosts.value), sections[1..])
  }

  /** Build the groups, then drop `DEFAULT` and `_global` if they are
      empty. */
  function AssembleWith(hostsOf: Section -> Result<seq<Entry>, ParseError>, sections: seq<Section>)
    : Result<seq<Group>, ParseError>
  {
    var built := BuildGroups(hostsOf, [], sections);
    if built.Failure? then Failure(built.error) else DropReserved(built.value)
  }

  /** The two removals after the loop, `DEFAULT` first. */
  function DropReserved(gs: seq<Group>): Result<seq<Group>, ParseError> {
    var noDefault := DropIfEmpty(gs, Default);
    if noDefault.Failure? then Failure(noDefault.error) else DropIfEmpty(noDefault.value, Global)
  }

  /** `Config.parse` after the configuration is read. */
  function Assemble(sections: seq<Section>): Result<seq<Group>, ParseError> {
    AssembleWith(SectionHosts, sections)
  }

  // ---------------------------------------------------------------------
  // What the assembly produces
  // ---------------------------------------------------------------------

  /** Section names occur once each, as the configuration reader ensures. */
  ghost predicate DistinctSections(sections: seq<Section>) {
    forall i, j :: 0 <= i < j < |sections| ==> sections[i].name != sections[j].name
  }

  /** Every section's work succeeds. */
  ghost predicate AllParse(hostsOf: Section -> Result<seq<Entry>, ParseError>, sections: seq<Section>) {
    forall i :: 0 <= i < |sections| ==> hostsOf(sections[i]).Success?
  }

  /** Some section bears the name `n`. */
  ghost predicate HasSection(sections: seq<Section>, n: string) {
    exists i :: 0 <= i < |sections| && sections[i].name == n
  }

  /** The reserved sections, dropped when empty. */
  predicate Reserved(n: string) {
    n == Default || n == Global
  }

  /** One group per section, in section order. */
  function AllGroups(hostsOf: Section -> Result<seq<Entry>, ParseError>, sections: seq<Section>): (r: seq<Group>)
    requires AllParse(hostsOf, sections)
    ensures |r| == |sections|
    ensures forall i :: 0 <= i < |sections| ==> r[i] == Group(sections[i].name, hostsOf(sections[i]).value)
  {
    if sections == [] then []
    else
      assert forall i :: 0 < i < |sections| ==> sections[i] == sections[1..][i - 1];
      [Group(sections[0].name, hostsOf(sections[0]).value)] + AllGroups(hostsOf, sections[1..])
  }

  lemma GroupNamedAppend(gs: seq<Group>, g: Group, n: string)
    ensures GroupNamed(gs + [g], n) <==> GroupNamed(gs, n) || g.name == n
  {
    if GroupNamed(gs, n) {
      var i :| 0 <= i < |gs| && gs[i].name == n;
      assert (gs + [g])[i] == gs[i];
    }
    if g.name == n {
      assert (gs + [g])[|gs|] == g;
    }
  }

  /** A section with a fresh name adds its group at the end. */
  lemma BuildStep(hostsOf: Section -> Result<seq<Entry>, ParseError>, gs: seq<Group>, sections: seq<Section>)
    requires sections != [] && hostsOf(sections[0]).Success?
    requires !GroupNamed(gs, sections[0].name)
    ensures BuildGroups(hostsOf, gs, sections) ==
              BuildGroups(hostsOf, gs + [Group(sections[0].name, hostsOf(sections[0]).value)], sections[1..])
  {
    assert Lookup(gs, sections[0].name).None?;
  }

  lemma AllGroupsCons(hostsOf: Section -> Result<seq<Entry>, ParseError>, sections: seq<Section>)
    requires sections != [] && AllParse(hostsOf, sections)
    ensures AllParse(hostsOf, sections[1..])
    ensures AllGroups(hostsOf, sections) ==
              [Group(sections[0].name, hostsOf(sections[0]).value)] + AllGroups(hostsOf, sections[1..])
  {
    assert forall j :: 0 < j < |sections| ==> sections[j] == sections[1..][j - 1];
  }

  /** What the loop needs of the sections after the first. */
  lemma TailFresh(hostsOf: Section -> Result<seq<Entry>, ParseError>, gs: seq<Group>, sections: seq<Section>)
    requires sections != [] && AllParse(hostsOf, sections) && DistinctSections(sections)
    requires forall j :: 0 <= j < |sections| ==> !GroupNamed(gs, sections[j].name)
    ensures AllParse(hostsOf, sections[1..]) && DistinctSections(sections[1..])
    ensures forall j :: 0 <= j < |sections[1..]| ==>
              !GroupNamed(gs + [Group(sections[0].name, hostsOf(sections[0]).value)], sections[1..][j].name)
  {
    var g0 := Group(sections[0].name, hostsOf(sections[0]).value);
    var tail := sections[1..];
    assert forall j :: 0 <= j < |tail| ==> tail[j] == sections[j + 1];
    forall j | 0 <= j < |tail|
      ensures !GroupNamed(gs + [g0], tail[j].name)
    {
      GroupNamedAppend(gs, g0, tail[j].name);
    }
  }

  /** With names not seen before, the loop appends one group per section. */
  lemma {:induction false} BuildAppends(hostsOf: Section -> Result<seq<Entry>, ParseError>, gs: seq<Group>, sections: seq<Section>)
    requires AllParse(hostsOf, sections) && DistinctSections(sections)
    requires forall j :: 0 <= j < |sections| ==> !GroupNamed(gs, sections[j].name)
    ensures BuildGroups(hostsOf, gs, sections) == Success(gs + AllGroups(hostsOf, sections))
    decreases |sections|
  {
    if sections == [] {
      assert gs + [] == gs;
    } else {
      var g0 := Group(sections[0].name, hostsOf(sections[0]).value);
      var tail := sections[1..];
      BuildStep(hostsOf, gs, sections);
      TailFresh(hostsOf, gs, sections);
      BuildAppends(hostsOf, gs + [g0], tail);
      AllGroupsCons(hostsOf, sections);
      AppendShift(gs, g0, AllGroups(hostsOf, tail), AllGroups(hostsOf, sections));
    }
  }

  /** A section that fails fails the whole loop, with its error when every
      section before it succeeded. */
  lemma {:induction false} BuildFails(hostsOf: Section -> Result<seq<Entry>, ParseError>, gs: seq<Group>, sections: seq<Section>, i: nat)
    requires i < |sections| && hostsOf(sections[i]).Failure?
    requires forall j :: 0 <= j < i ==> hostsOf(sections[j]).Success?
    ensures BuildGroups(hostsOf, gs, sections) == Failure(hostsOf(sections[i]).error)
    decreases i
  {
    if i > 0 {
      assert forall j :: 0 < j < |sections| ==> sections[j] == sections[1..][j - 1];
      BuildFails(hostsOf, Assign(gs, sections[0].name, hostsOf(sections[0]).value), sections[1..], i - 1);
    }
  }

  lemma {:induction false} BuildFailsSome(hostsOf: Section -> Result<seq<Entry>, ParseError>, gs: seq<Group>, sections: seq<Section>)
    requires !AllParse(hostsOf, sections)
    ensures BuildGroups(hostsOf, gs, sections).Failure?
    decreases |sections|
  {
    if hostsOf(sections[0]).Success? {
      assert forall j :: 0 < j < |sections| ==> sections[j] == sections[1..][j - 1];
      BuildFailsSome(hostsOf, Assign(gs, sections[0].name, hostsOf(sections[0]).value), sections[1..]);
    }
  }

  lemma {:induction false} PruneAbsent(gs: seq<Group>, n: string)
    requires forall i :: 0 <= i < |gs| ==> gs[i].name != n
    ensures Prune(gs, n) == gs && Remove(gs, n) == gs
  {
    if gs != [] {
      assert forall i :: 0 < i < |gs| ==> gs[i] == gs[1..][i - 1];
      PruneAbsent(gs[1..], n);
      assert [gs[0]] + gs[1..] == gs;
    }
  }

  /** Deleting the one group of a name when it is empty is pruning. */
  lemma {:induction false} RemoveIsPrune(gs: seq<Group>, n: string, h: seq<Entry>)
    requires UniqueNames(gs) && Lookup(gs, n) == Some(h)
    ensures Prune(gs, n) == if h == [] then Remove(gs, n) else gs
  {
    assert forall i :: 0 < i < |gs| ==> gs[i] == gs[1..][i - 1];
    assert [gs[0]] + gs[1..] == gs;
    if gs[0].name == n {
      PruneAbsent(gs[1..], n);
    } else {
      RemoveIsPrune(gs[1..], n, h);
    }
  }

  lemma {:induction false} PruneKeepsUnique(gs: seq<Group>, n: string)
    requires UniqueNames(gs)
    ensures UniqueNames(Prune(gs, n))
  {
    if gs != [] {
      assert forall i :: 0 < i < |gs| ==> gs[i] == gs[1..][i - 1];
      PruneKeepsUnique(gs[1..], n);
      var r := Prune(gs[1..], n);
      if !(gs[0].name == n && gs[0].hosts == []) {
        assert forall g :: g in gs[1..] ==> g.name != gs[0].name;
        ConsUnique(gs[0], r);
      }
    }
  }

  /** A group whose name no other group bears can go in front. */
  lemma ConsUnique(g: Group, r: seq<Group>)
    requires UniqueNames(r) && forall x :: x in r ==> x.name != g.name
    ensures UniqueNames([g] + r)
  {
    forall i, j | 0 <= i < j < |[g] + r|
      ensures ([g] + r)[i].name != ([g] + r)[j].name
    {
      if i == 0 {
        assert ([g] + r)[j] == r[j - 1];
        assert r[j - 1] in r;
      } else {
        assert ([g] + r)[i] == r[i - 1] && ([g] + r)[j] == r[j - 1];
      }
    }
  }

  lemma DropIsPrune(gs: seq<Group>, n: string)
    requires UniqueNames(gs) && Lookup(gs, n).Some?
    ensures DropIfEmpty(gs, n) == Success(Prune(gs, n))
  {
    RemoveIsPrune(gs, n, Lookup(gs, n).value);
  }

  /** Some group bears the name `n`. */
  ghost predicate GroupNamed(gs: seq<Group>, n: string) {
    exists i :: 0 <= i < |gs| && gs[i].name == n
  }

  lemma PruneNamed(gs: seq<Group>, n: string, m: string)
    requires m != n
    ensures GroupNamed(Prune(gs, n), m) <==> GroupNamed(gs, m)
  {
    var r := Prune(gs, n);
    if GroupNamed(gs, m) {
      var i :| 0 <= i < |gs| && gs[i].name == m;
      assert gs[i] in r;
    }
    if GroupNamed(r, m) {
      var i :| 0 <= i < |r| && r[i].name == m;
      assert r[i] in gs;
    }
  }

  /** The removals succeed exactly when both reserved groups exist; each
      reserved group is then dropped exactly when it is empty. */
  lemma DropReservedSpec(gs: seq<Group>)
    requires UniqueNames(gs)
    ensures DropReserved(gs).Success? <==> GroupNamed(gs, Default) && GroupNamed(gs, Global)
    ensures DropReserved(gs).Success? ==> DropReserved(gs).value == Prune(Prune(gs, Default), Global)
  {
    if GroupNamed(gs, Default) {
      DropIsPrune(gs, Default);
      var kept := Prune(gs, Default);
      PruneKeepsUnique(gs, Default);
      PruneNamed(gs, Default, Global);
      if GroupNamed(kept, Global) {
        DropIsPrune(kept, Global);
      }
    }
  }

  lemma AllGroupsNamed(hostsOf: Section -> Result<seq<Entry>, ParseError>, sections: seq<Section>, n: string)
    requires AllParse(hostsOf, sections)
    ensures GroupNamed(AllGroups(hostsOf, sections), n) <==> HasSection(sections, n)
  {
    var all := AllGroups(hostsOf, sections);
    if HasSection(sections, n) {
      var i :| 0 <= i < |sections| && sections[i].name == n;
      assert all[i].name == n;
    }
  }

  lemma AssembleWithSpec(hostsOf: Section -> Result<seq<Entry>, ParseError>, sections: seq<Section>)
    requires DistinctSections(sections)
    ensures AssembleWith(hostsOf, sections).Success? <==>
              AllParse(hostsOf, sections) && HasSection(sections, Default) && HasSection(sections, Global)
    ensures AssembleWith(hostsOf, sections).Success? ==>
              AssembleWith(hostsOf, sections).value == Prune(Prune(AllGroups(hostsOf, sections), Default), Global)
  {
    if !AllParse(hostsOf, sections) {
      BuildFailsSome(hostsOf, [], sections);
    } else {
      var all := AllGroups(hostsOf, sections);
      BuildAll(hostsOf, sections);
      AllGroupsNamed(hostsOf, sections, Default);
      AllGroupsNamed(hostsOf, sections, Global);
      DropReservedSpec(all);
    }
  }

  /** With distinct names and every section succeeding, the loop yields one
      group per section, no name twice. */
  lemma BuildAll(hostsOf: Section -> Result<seq<Entry>, ParseError>, sections: seq<Section>)
    requires DistinctSections(sections) && AllParse(hostsOf, sections)
    ensures BuildGroups(hostsOf, [], sections) == Success(AllGroups(hostsOf, sections))
    ensures UniqueNames(AllGroups(hostsOf, sections))
  {
    BuildAppends(hostsOf, [], sections);
    assert [] + AllGroups(hostsOf, sections) == AllGroups(hostsOf, sections);
  }

  /** With distinct section names, the assembly succeeds exactly when every
      section parses and reorders and both reserved sections are present;
      its groups are then one per section in section order, without the
      reserved ones that are empty. */
  lemma AssembleSpec(sections: seq<Section>)
    requires DistinctSections(sections)
    ensures Assemble(sections).Success? <==>
              AllParse(SectionHosts, sections) && HasSection(sections, Default) && HasSection(sections, Global)
    ensures Assemble(sections).Success? ==>
              Assemble(sections).value == Prune(Prune(AllGroups(SectionHosts, sections), Default), Global)
  {
    AssembleWithSpec(SectionHosts, sections);
  }

  /** The groups of a successful assembly: the group of every section, in
      section order, except a reserved one whose host list is empty. */
  lemma AssembleGroups(sections: seq<Section>)
    requires DistinctSections(sections) && Assemble(sections).Success?
    ensures AllParse(SectionHosts, sections)
    ensures IsSubseq(Assemble(sections).value, AllGroups(SectionHosts, sections))
    ensures forall g :: g in Assemble(sections).value <==>
              g in AllGroups(SectionHosts, sections) && !(Reserved(g.name) && g.hosts == [])
  {
    AssembleSpec(sections);
    var all := AllGroups(SectionHosts, sections);
    SubseqTrans(Prune(Prune(all, Default), Global), Prune(all, Default), all);
  }

  /** The first section that fails to parse or reorder fails the whole
      assembly with its error. */
  lemma AssembleFails(sections: seq<Section>, i: nat)
    requires i < |sections| && SectionHosts(sections[i]).Failure?
    requires forall j :: 0 <= j < i ==> SectionHosts(sections[j]).Success?
    ensures Assemble(sections) == Failure(SectionHosts(sections[i]).error)
  {
    BuildFails(SectionHosts, [], sections, i);
  }
}
