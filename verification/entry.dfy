/** The per-line grammar of the hosts file: `Config._parse_value` and its
    helpers turn one `key = value` option into a host record. */
module Entries {
  import opened Results
  import opened Text

  /** One host record, the dict built by `_parse_value`. `parent` is `None`
      for a key without `->`; `level` counts the `->` separators of the key. */
  datatype Entry = Entry(
    name: string,
    users: seq<string>,
    host: string,
    comment: string,
    parent: Option<string>,
    level: nat,
    critical: bool)

  /** The exceptions that abort a parse of the hosts file. */
  datatype ParseError =
    | Malformed(entry: string)                // ValueError carrying "key = value"
    | EmptyLeaf(key: string)                  // IndexError from `name[-1]` on an empty leaf
    | Orphan(parent: string, child: string)   // ValueError: no record bears the parent's name
    | MissingSection(section: string)         // KeyError on a reserved section

  /** The hierarchy separator of a key. */
  const Arrow: string := "->"

  /** The key-side fields of a record. */
  datatype KeyInfo = KeyInfo(name: string, parent: Option<string>, level: nat, critical: bool)

  /** The invariant every parsed record satisfies: it is top level exactly
      when it names no parent. */
  predicate WellFormed(e: Entry) {
    e.level == 0 <==> e.parent.None?
  }

  lemma ArrowBorderFree()
    ensures BorderFree(Arrow)
  {
    assert Arrow[..1] != Arrow[1..] by {
      assert Arrow[..1][0] == '-' && Arrow[1..][0] == '>';
    }
  }

  /** The leaf segment of a key: the name, with a `!` when critical. */
  function LeafSegment(name: string, critical: bool): string {
    if critical then name + "!" else name
  }

  /** Removing the one trailing `!` of a leaf and putting it back restores
      the leaf. */
  lemma LeafSplit(leaf: string)
    requires |leaf| > 0
    ensures var critical := leaf[|leaf| - 1] == '!';
            LeafSegment(if critical then leaf[..|leaf| - 1] else leaf, critical) == leaf
  {
  }

  /** `_get_name_and_parent`: the key is split on `->` and each segment
      stripped; the last segment is the leaf, whose one trailing `!` marks the
      record critical; the segment before it, with every `!` removed, is the
      parent; the level is the number of segments minus one. */
  function ParseKey(key: string): (r: Result<KeyInfo, ParseError>)
    ensures var segs := Split(key, Arrow);
            var leaf := Strip(segs[|segs| - 1]);
            && (r.Failure? <==> leaf == [])
            && (r.Failure? ==> r.error == EmptyLeaf(key))
            && (r.Success? ==>
                  && r.value.level + 1 == |segs|
                  && (r.value.level == 0 <==> r.value.parent.None?)
                  && (r.value.critical <==> leaf[|leaf| - 1] == '!')
                  && LeafSegment(r.value.name, r.value.critical) == leaf
                  && (r.value.parent.Some? ==> '!' !in r.value.parent.value)
                  && (r.value.parent.Some? ==>
                        r.value.parent.value == RemoveAll(Strip(segs[|segs| - 2]), '!')))
  {
    var segs := Split(key, Arrow);
    var leaf := Strip(segs[|segs| - 1]);
    if leaf == [] then
      Failure(EmptyLeaf(key))
    else
      var critical := leaf[|leaf| - 1] == '!';
      var name := if critical then leaf[..|leaf| - 1] else leaf;
      LeafSplit(leaf);
      // Only the last two segments are used, so only they are stripped here.
      var parent := if |segs| > 1 then Some(RemoveAll(Strip(segs[|segs| - 2]), '!')) else None;
      Success(KeyInfo(name, parent, |segs| - 1, critical))
  }

  /** The user list: the stripped text before the first `@`, split on `,`,
      the items themselves not stripped. */
  function Users(text: string): (r: seq<string>)
    ensures |r| >= 1
    ensures Join(r, ",") == Strip(text)
    ensures forall k :: 0 <= k < |r| ==> ',' !in r[k]
  {
    var r := Split(Strip(text), ",");
    assert forall k :: 0 <= k < |r| ==> ',' !in r[k] by {
      forall k | 0 <= k < |r| ensures ',' !in r[k] {
        ContainsChar(r[k], ',');
      }
    }
    r
  }

  /** `_get_host_and_comment` on the (already stripped, non-empty) text after
      the `@`: the stripped halves around the first `#`, the comment empty
      when there is no `#`. */
  function HostAndComment(rest: string): (r: (string, string))
    requires Trimmed(rest)
    ensures '#' !in r.0
    ensures Trimmed(r.0) && Trimmed(r.1)
    ensures '#' !in rest ==> r == (rest, [])
    ensures '#' in rest ==> |r.0| + |r.1| < |rest|
  {
    ContainsChar(rest, '#');
    match SplitOnce(rest, "#")
    case None => (Strip(rest), [])
    case Some((h, c)) =>
      ContainsChar(h, '#');
      (Strip(h), Strip(c))
  }

  /** `_parse_value`: the record for option `key = value`, or the exception
      the source raises. The checks run in the source's order: empty value,
      empty leaf name, missing `@`, nothing after the `@`. */
  function ParseValue(key: string, value: string): (r: Result<Entry, ParseError>)
    ensures value == [] ==> r == Failure(Malformed(key + " = " + value))
    ensures value != [] && ParseKey(key).Failure? ==> r == Failure(EmptyLeaf(key))
    ensures value != [] && ParseKey(key).Success? && '@' !in value ==>
              r == Failure(Malformed(key + " = " + value))
    ensures r.Success? <==>
              && value != []
              && ParseKey(key).Success?
              && '@' in value
              && !AllSpace(SplitOnce(value, "@").value.1)
    ensures r.Failure? ==> r.error.Malformed? || r.error.EmptyLeaf?
    ensures r.Failure? && ParseKey(key).Success? ==> r.error == Malformed(key + " = " + value)
    ensures r.Success? ==> WellFormed(r.value)
    ensures r.Success? ==>
              var k := ParseKey(key).value;
              && r.value.name == k.name && r.value.parent == k.parent
              && r.value.level == k.level && r.value.critical == k.critical
    ensures r.Success? ==>
              && |r.value.users| >= 1
              && Join(r.value.users, ",") == Strip(SplitOnce(value, "@").value.0)
              && (forall k :: 0 <= k < |r.value.users| ==> ',' !in r.value.users[k])
    ensures r.Success? ==>
              && '#' !in r.value.host
              && Trimmed(r.value.host)
              && Trimmed(r.value.comment)
  {
    var entry := key + " = " + value;
    ContainsChar(value, '@');
    if value == [] then
      Failure(Malformed(entry))
    else if ParseKey(key).Failure? then
      Failure(ParseKey(key).error)
    else
      var k := ParseKey(key).value;
      var split := SplitOnce(value, "@");
      if split.None? then
        Failure(Malformed(entry))
      else
        var rest := Strip(split.value.1);
        if rest == [] then
          Failure(Malformed(entry))
        else
          var hostAndComment := HostAndComment(rest);
          Success(Entry(k.name, Users(split.value.0), hostAndComment.0, hostAndComment.1,
                        k.parent, k.level, k.critical))
  }

  /** Text after the `@` that holds a `#`: the host and comment are the
      stripped pieces around its first `#`. */
  lemma HostAndCommentSplit(h: string, c: string)
    requires '#' !in h
    ensures Trimmed(Strip(h + "#" + c))
    ensures HostAndComment(Strip(h + "#" + c)) == (Strip(h), Strip(c))
  {
    assert h + "#" + c == h + ['#'] + c;
    StripSplitsAt(h, '#', c);
    StripTrimLeft(h);
    StripTrimRight(c);
  }

  /** Any value with a `#` after its first `@`: an empty leaf fails as
      always; otherwise the users are the stripped text before the `@` split
      on `,`, the host and comment the stripped pieces around the first `#`
      that follows. */
  lemma ValueWithComment(key: string, u: string, h: string, c: string)
    requires '@' !in u && '#' !in h
    ensures ParseKey(key).Failure? ==> ParseValue(key, u + "@" + h + "#" + c) == Failure(EmptyLeaf(key))
    ensures ParseKey(key).Success? ==>
              var k := ParseKey(key).value;
              ParseValue(key, u + "@" + h + "#" + c) ==
              Success(Entry(k.name, Split(Strip(u), ","), Strip(h), Strip(c), k.parent, k.level, k.critical))
  {
    var after := h + "#" + c;
    assert u + "@" + h + "#" + c == u + "@" + after;
    ContainsChar(u, '@');
    SingleCharBorderFree('@');
    SplitOnceAfterPart(u, "@", after);
    assert after[|h|] == '#';
    NonBlankAt(after, |h|);
    HostAndCommentSplit(h, c);
  }

  /** Any value with no `#` after its first `@` and something besides
      whitespace there: an empty leaf fails as always; otherwise that text,
      stripped, is the host and the comment is empty. */
  lemma ValueWithoutComment(key: string, u: string, t: string)
    requires '@' !in u && '#' !in t && !AllSpace(t)
    ensures ParseKey(key).Failure? ==> ParseValue(key, u + "@" + t) == Failure(EmptyLeaf(key))
    ensures ParseKey(key).Success? ==>
              var k := ParseKey(key).value;
              ParseValue(key, u + "@" + t) ==
              Success(Entry(k.name, Split(Strip(u), ","), Strip(t), "", k.parent, k.level, k.critical))
  {
    ContainsChar(u, '@');
    SingleCharBorderFree('@');
    SplitOnceAfterPart(u, "@", t);
    assert '#' !in Strip(t);
  }

  // ---------------------------------------------------------------------
  // Writing a record back as an option, and reading it again
  // ---------------------------------------------------------------------

  /** A key `a -> b -> name[!]` for the given ancestor segments. */
  function FormatKey(ancestors: seq<string>, name: string, critical: bool): string {
    Join(ancestors + [LeafSegment(name, critical)], Arrow)
  }

  /** A value `user1,user2@host#comment`. */
  function FormatValue(users: seq<string>, host: string, comment: string): string {
    Join(users, ",") + "@" + host + "#" + comment
  }

  /** A key segment that reads back unchanged: no surrounding whitespace and
      no separator inside it. */
  ghost predicate CleanSegment(s: string) {
    Trimmed(s) && !Contains(s, Arrow)
  }

  /** The key fields a key can be written for: the parent carries no `!`
      (it would be removed), and a non-critical name does not itself end in
      `!` (it would be read as the critical marker). */
  ghost predicate KeyWritable(ancestors: seq<string>, name: string, critical: bool) {
    && (forall i :: 0 <= i < |ancestors| ==> CleanSegment(ancestors[i]))
    && (|ancestors| > 0 ==> '!' !in ancestors[|ancestors| - 1])
    && CleanSegment(LeafSegment(name, critical))
    && (critical || (|name| > 0 && name[|name| - 1] != '!'))
  }

  /** The value fields a value can be written for: users free of `,` and `@`
      with no whitespace at the ends of the list, a trimmed host free of `#`,
      a trimmed comment. */
  predicate ValueWritable(users: seq<string>, host: string, comment: string) {
    && |users| > 0
    && (forall i :: 0 <= i < |users| ==> ',' !in users[i] && '@' !in users[i])
    && Trimmed(Join(users, ","))
    && Trimmed(host) && '#' !in host
    && Trimmed(comment)
  }

  /** The key grammar reads back the name, parent, level and critical flag a
      key was written with. */
  lemma {:induction false} KeyRoundTrip(ancestors: seq<string>, name: string, critical: bool)
    requires KeyWritable(ancestors, name, critical)
    ensures ParseKey(FormatKey(ancestors, name, critical)) ==
            Success(KeyInfo(name,
                            if |ancestors| == 0 then None else Some(ancestors[|ancestors| - 1]),
                            |ancestors|,
                            critical))
  {
    var leaf := LeafSegment(name, critical);
    var parts := ancestors + [leaf];
    KeySegments(ancestors, name, critical);
    assert parts[|parts| - 1] == leaf;
    if |ancestors| > 0 {
      assert parts[|parts| - 2] == ancestors[|ancestors| - 1];
    }
    KeyOfSegments(FormatKey(ancestors, name, critical), parts, name, critical);
  }

  /** The key fields read from a key whose segments are known. */
  lemma KeyOfSegments(key: string, parts: seq<string>, name: string, critical: bool)
    requires Split(key, Arrow) == parts && |parts| > 0
    requires parts[|parts| - 1] == LeafSegment(name, critical)
    requires Trimmed(LeafSegment(name, critical))
    requires critical || (|name| > 0 && name[|name| - 1] != '!')
    requires |parts| > 1 ==> Trimmed(parts[|parts| - 2]) && '!' !in parts[|parts| - 2]
    ensures ParseKey(key) ==
            Success(KeyInfo(name, if |parts| == 1 then None else Some(parts[|parts| - 2]),
                            |parts| - 1, critical))
  {
    var leaf := LeafSegment(name, critical);
    assert Strip(leaf) == leaf;
    if critical {
      assert leaf[..|leaf| - 1] == name;
    }
  }

  /** A written key splits back into the segments it was joined from. */
  lemma KeySegments(ancestors: seq<string>, name: string, critical: bool)
    requires KeyWritable(ancestors, name, critical)
    ensures Split(FormatKey(ancestors, name, critical), Arrow) == ancestors + [LeafSegment(name, critical)]
  {
    var parts := ancestors + [LeafSegment(name, critical)];
    assert forall k :: 0 <= k < |parts| ==> CleanSegment(parts[k]);
    ArrowBorderFree();
    SplitJoin(parts, Arrow);
  }

  /** The user list reads back the users it was joined from. */
  lemma UsersRoundTrip(users: seq<string>)
    requires |users| > 0
    requires forall i :: 0 <= i < |users| ==> ',' !in users[i]
    requires Trimmed(Join(users, ","))
    ensures Users(Join(users, ",")) == users
  {
    forall i | 0 <= i < |users| ensures !Contains(users[i], ",") {
      ContainsChar(users[i], ',');
    }
    SingleCharBorderFree(',');
    SplitJoin(users, ",");
  }

  /** The value grammar reads back the users, host and comment a value was
      written with, whatever the (parsable) key. */
  lemma ValueRoundTrip(key: string, users: seq<string>, host: string, comment: string)
    requires ParseKey(key).Success?
    requires ValueWritable(users, host, comment)
    ensures var k := ParseKey(key).value;
            ParseValue(key, FormatValue(users, host, comment)) ==
            Success(Entry(k.name, users, host, comment, k.parent, k.level, k.critical))
  {
    var j := Join(users, ",");
    JoinAvoids(users, ",", '@');
    ValueWithComment(key, j, host, comment);
    UsersRoundTrip(users);
  }

  /** Reading back a written option yields the record it was written from. */
  lemma ParseFormatRoundTrip(ancestors: seq<string>, name: string, critical: bool,
                             users: seq<string>, host: string, comment: string)
    requires KeyWritable(ancestors, name, critical)
    requires ValueWritable(users, host, comment)
    ensures ParseValue(FormatKey(ancestors, name, critical), FormatValue(users, host, comment)) ==
            Success(Entry(name, users, host, comment,
                          if |ancestors| == 0 then None else Some(ancestors[|ancestors| - 1]),
                          |ancestors|, critical))
  {
    KeyRoundTrip(ancestors, name, critical);
    ValueRoundTrip(FormatKey(ancestors, name, critical), users, host, comment);
  }
}
