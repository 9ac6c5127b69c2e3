# pickhost: the hosts-file grammar, the hierarchy reorder and the cache line

pickhost lets a user pick an SSH host from a list. The list lives in an
INI-style hosts file. Each option of a section is one host, written
`name = user1,user2@host #comment`. A key `parent -> child` nests a host
below another one, and a leaf name ending in `!` marks the host critical.
`Config.parse` turns the file into an ordered map from section name to the
section's hosts in display order. Each child follows its parent's
descendants, depth first. A one-line cache file remembers the last host
picked.

This Dafny project models four parts of `pickhost/pickhost.py`:

- **`Entries`** (`entry.dfy`): `Config._parse_value` and its helpers. One
  `key = value` option becomes a host record, or the error the code raises.
- **`Hierarchy`** (`hierarchy.dfy`) and **`Reordering`** (`reorder.dfy`):
  `_insert_after_parent` and `_reorder`.
  - The level-by-level passes are proved equal to placing the records one
    by one, in a level-major schedule (`Schedule`).
  - Every ordering property is proved about that schedule.
- **`Groups`** (`groups.dfy`): the section loop of `Config.parse`. It builds
  one group per section. It then drops the reserved `DEFAULT` and
  `_global` sections, but only when they are empty.
- **`Cache`** (`cache.dfy`): `Cache.parse` and the line `Cache.save_entry`
  writes, with the file itself removed.

`Text` (`text.dfy`) models the Python string operations the code relies
on: `str.strip`, `str.split` (all occurrences, and at most once) and
`str.replace`. The code never calls `str.join`. `Text.Join` exists only to
state what a split returns and to write keys and values for the round-trip
lemmas. `Sequences` (`sequences.dfy`) defines subsequences, which the
contracts of `RemoveAll`, `InsertAfterParent`, `Place` and the group
assembly use. `Results` (`results.dfy`) holds the `Option`
and `Result` types. A Python exception becomes a `Failure` value.

The hosts file and the cache file are not read. The model works on the
sections the configuration reader yields and on the cache line's text.

A note on records whose parent name is empty. The code appends such a
record instead of inserting it, because `if not i['_parent']` treats `""`
as "no parent". An example is a key written ` -> e`, which has level 1 and
parent `""`. `ExampleEmptyParent` shows that this record then moves behind
a root listed after it. Such records keep their input order only among the
records of their own level (`UnlinkedKeepOrder`), not across levels.

A note on children at the same level as their parent. A key `P -> s` with
`P` itself at level 1 gives `s` level 1 too. The run that `s` is inserted
behind stops at the first record whose level is at most the parent's. That
stop also happens at an earlier sibling of the same level, so each new
sibling is inserted in front of the ones placed before it. Such siblings
come out in reverse input order, and reordering a reordered list need not
give it back: `ExampleSiblingsFlip` shows `[a, P, s1, s2]` becoming
`[a, P, s2, s1]` and that list becoming `[a, P, s1, s2]` again.

## Model

| member | source | states |
|---|---|---|
| Text.Strip | pickhost/pickhost.py:115 | the stripped text is trimmed, holds only characters of the input, leaves trimmed text alone, and is empty exactly when the input is all whitespace |
| Text.StripIsSlice | pickhost/pickhost.py:115 | the stripped text is a slice of the input, and what is cut off before and after it is whitespace |
| Text.Split | pickhost/pickhost.py:115 | the pieces joined with the separator give back the input, and no piece contains the separator |
| Text.SplitJoin | pickhost/pickhost.py:115 | splitting undoes joining for pieces free of a border-free separator |
| Text.SplitOnce | pickhost/pickhost.py:132 | `split(sep, 1)` fails to give two parts exactly when the separator is absent; otherwise the input is head + separator + tail, with no separator in the head |
| Text.RemoveAll | pickhost/pickhost.py:126 | `replace('!', '')`: the result has no `!`, keeps the other characters in order (a subsequence) and is shorter by the number of `!`s |
| Text.RemoveAllUnique | pickhost/pickhost.py:126 | any `!`-free subsequence of that length is `RemoveAll`'s result, so its contract determines it |
| Entries.ParseKey | pickhost/pickhost.py:114-128 | fails with `EmptyLeaf` exactly when the stripped last segment is empty; the level is the segment count minus one; the record is critical exactly when the leaf ends in `!`; the name is the leaf without that `!`; the parent is the stripped second-to-last segment with every `!` removed, and is absent exactly at level 0 |
| Entries.Users | pickhost/pickhost.py:151-152 | at least one user; the users joined with `,` give the stripped text before the `@`; no user contains `,` |
| Entries.HostAndComment | pickhost/pickhost.py:138-146 | the host holds no `#`, host and comment are trimmed, and text without `#` is the host with an empty comment |
| Entries.HostAndCommentSplit | pickhost/pickhost.py:138-146 | for any text with a `#`, host and comment are the stripped pieces around its first `#` |
| Entries.ParseValue | pickhost/pickhost.py:100-160 | an empty value, an empty leaf, a missing `@` and blank text after the `@` fail, checked in that order; every failure other than the empty leaf carries the `key = value` text; otherwise the key fields come from `ParseKey`, there is at least one user, the users join back to the stripped text before the first `@`, and the host and comment are trimmed with no `#` in the host |
| Entries.ValueWithComment | pickhost/pickhost.py:148-153 | for any value `u@h#c` with no `@` in `u` and no `#` in `h`: an empty leaf fails with `EmptyLeaf`; otherwise the users are `strip(u)` split on `,`, the host is `strip(h)` and the comment is `strip(c)` |
| Entries.ValueWithoutComment | pickhost/pickhost.py:138-146 | for any value `u@t` with no `@` in `u`, no `#` in `t` and `t` not blank: an empty leaf fails with `EmptyLeaf`; otherwise the users are `strip(u)` split on `,`, the host is `strip(t)` and the comment is empty |
| Entries.KeyRoundTrip | pickhost/pickhost.py:114-128 | a key written from clean segments reads back its name, parent, level and critical flag |
| Entries.ValueRoundTrip | pickhost/pickhost.py:148-153 | a value written as `users@host#comment` reads back the same users, host and comment |
| Entries.ParseFormatRoundTrip | pickhost/pickhost.py:100-160 | a written option reads back the record it was written from |
| Hierarchy.FindName | pickhost/pickhost.py:52-55 | the parent is the first record bearing the name, and there is none exactly when no record bears it |
| Hierarchy.RunEnd | pickhost/pickhost.py:56-59 | the scan after the parent stops at the end of the parent's descendant run: every record it passes is deeper than the parent, and the record it stops at is not |
| Hierarchy.InsertAfterParent | pickhost/pickhost.py:46-64 | fails with `Orphan` exactly when no record bears the parent's name; otherwise inserts at the end of the first such record's descendant run, or appends there only when no equal record is present; the old list stays a subsequence and the members are the old ones plus the new one |
| Hierarchy.InsertAfterParentLoop | pickhost/pickhost.py:46-64 | the single scan as the code writes it gives the same result as `InsertAfterParent` |
| Reordering.Place | pickhost/pickhost.py:69-73 | a record without a parent name is appended to the end; a record with one fails exactly when no placed record bears that name; the placed records stay a subsequence |
| Reordering.Pass | pickhost/pickhost.py:67-75 | one pass over the input places the records of its level in input order and collects the other records, in input order, into `rest`, stopping at the first failure |
| Reordering.Reorder | pickhost/pickhost.py:66-77 | the recursive passes with their `rest` lists equal placing the records one at a time in level-major order |
| Reordering.ReorderAll | pickhost/pickhost.py:90 | the reorder of one section equals placing its level-major schedule into an empty list |
| Reordering.ReorderKeeps | pickhost/pickhost.py:66-77 | the reordered list holds exactly the input's records, none more often than in the input |
| Reordering.ReorderPermutation | pickhost/pickhost.py:66-77 | for pairwise different records the reorder is a permutation |
| Reordering.ReorderSucceedsIff | pickhost/pickhost.py:60-64 | the reorder succeeds exactly when every parent reference finds a record of that name placed before it in level-major order |
| Reordering.OrphanFails | pickhost/pickhost.py:62-64 | a parent name that no record of the section bears fails the reorder |
| Reordering.ShallowerParentsSucceed | pickhost/pickhost.py:66-77 | when each parent name belongs to a record at a shallower level, the reorder succeeds |
| Reordering.ReorderParentsPrecede | pickhost/pickhost.py:46-64 | in the result, every record that names a parent comes after a record bearing that name |
| Reordering.RootsKeepOrder | pickhost/pickhost.py:70-71 | top-level records keep their input order |
| Reordering.UnlinkedKeepOrder | pickhost/pickhost.py:70-71 | on each level, the records without a parent name keep their input order |
| Reordering.ExampleChildrenFollowParents | pickhost/pickhost.py:66-77 | `[a, c, d, b]`, with `b` below `a` and `d` below `b`, becomes `[a, b, d, c]` |
| Reordering.ExampleDuplicateDropped | pickhost/pickhost.py:60-61 | a second copy of a child whose parent's run reaches the end of the list is dropped |
| Reordering.ExampleOrphan | pickhost/pickhost.py:62-64 | a level-1 record `b` whose parent name `a` no record bears fails with `Orphan("a", "b")` |
| Reordering.SiblingsReversed | pickhost/pickhost.py:52-59 | a root `a`, a level-1 child `P` of `a` and two level-1 children of `P`, in that order, come out with the two children swapped |
| Reordering.ExampleSiblingsFlip | pickhost/pickhost.py:52-59 | reordering `[a, P, s1, s2]` gives `[a, P, s2, s1]`, and reordering that gives `[a, P, s1, s2]`, so the reorder is not idempotent |
| Reordering.ExampleEmptyParent | pickhost/pickhost.py:70-71 | a level-1 record with an empty parent name is appended behind a root listed after it |
| Groups.MapAll | pickhost/pickhost.py:86-87 | parsing the options one by one either gives one record per option, in order, or fails with the error of the first option that fails |
| Groups.SectionHostsKeep | pickhost/pickhost.py:85-90 | a section's hosts are exactly the records its options parse to |
| Groups.Assign | pickhost/pickhost.py:89 | assigning to an ordered map appends a new name; an existing name keeps its place and takes the new hosts; other names are unaffected |
| Groups.Lookup | pickhost/pickhost.py:94-96 | `self.groups[name]` finds nothing exactly when no group has the name, and otherwise the hosts of a group of that name |
| Groups.DropIfEmpty | pickhost/pickhost.py:94-97 | the lookup fails with `MissingSection` exactly when no group has that name |
| Groups.AssembleSpec | pickhost/pickhost.py:83-97 | for distinct section names, the assembly succeeds exactly when every section parses and reorders and both reserved sections exist; the result is one group per section, in order, with empty reserved groups removed |
| Groups.AssembleGroups | pickhost/pickhost.py:83-97 | a group is in the result exactly when it is a section's group and not an empty reserved one, and the result keeps section order |
| Groups.AssembleFails | pickhost/pickhost.py:84-90 | the first section that fails stops the assembly with that section's error |
| Cache.ParseCache | pickhost/pickhost.py:213-224 | blank text gives no entries; any other text gives the one entry of its stripped line, or the separator error |
| Cache.StripSplit | pickhost/pickhost.py:217-219 | unpacking the stripped halves of `split(c, 1)` fails with `MissingSeparator(c)` exactly when `c` is absent; otherwise both halves are trimmed and the first holds no `c` |
| Cache.ParseFields | pickhost/pickhost.py:217-224 | the entry is critical, its name, user and host are trimmed and free of the separator that ends them, and a failure names `=`, `@` or `#` |
| Cache.FieldsChain | pickhost/pickhost.py:217-224 | for any line cut at its first `=`, then `@`, then `#`, the fields are the stripped pieces and the description is `<desc>: <name>` |
| Cache.CacheRoundTrip | pickhost/pickhost.py:233-235 | a saved line reads back the saved name, user and host, with the description `<description>: <name>` |
| Cache.CacheNeedsAt | pickhost/pickhost.py:218 | a line with no `@` after its first `=` fails on the user split |
| Cache.CacheNeedsHash | pickhost/pickhost.py:219 | a line with no `#` after the user fails on the host split |

## Left out

- The configuration reader is not modelled. Sections arrive already resolved. There is no key lowercasing by `configparser`, no `DEFAULT` inheritance into other sections, no interpolation, and no rejection of duplicate sections or options. `DistinctSections` is assumed where the reader would guarantee it.
- Reading the hosts file and the cache file is not modelled. This includes the `_global` header prepended at pickhost.py:81 and the file writes.
- Text.Strip: whitespace is ASCII only (space, `\t\n\r\v\f`, `\x1c`–`\x1f`). Python's `str.strip` also removes Unicode whitespace such as U+00A0, U+0085 and U+2000–U+200A; the model keeps those.
- Entries.ParseKey: the `IndexError` that `name[-1]` raises on an empty leaf (pickhost.py:120) is modelled as the error value `EmptyLeaf`.
- Groups.DropIfEmpty: the `KeyError` that a missing `DEFAULT` or `_global` raises (pickhost.py:94, 96) is modelled as the error value `MissingSection`. Any error is a value, not an exception with a traceback.
- Reordering.Reorder: Python's `RecursionError` is not modelled. `_reorder` recurses once per level, so keys nested more than about 1000 levels deep would raise it.
- Groups.AssembleWith: when a section fails, the code leaves a partly filled `self.groups` on the object. The model returns only the error.
- Cache.CacheRoundTrip: `entry['user']` is taken to be a string. A record from the hosts file holds a list of users, which `%s` would render in list syntax.
- Finding a cache or configuration directory (`_get_cache_file`, `_get_config_file`, `system.py`) is not modelled, nor is the host picker UI (`PickHost`). Also left out are launching the editor (pickhost.py:295-297) and printing the chosen entry as `export` lines (`__main__.py`).
