/** The cache file: one line remembering the last host picked, written by
    `Cache.save_entry` and read back by `Cache.parse`. The file itself is
    not modelled; both sides work on the line's text. */
module Cache {
  import opened Results
  import opened Text

  /** The record `Cache.parse` returns. */
  datatype CachedEntry = CachedEntry(
    description: string,
    name: string,
    user: string,
    host: string,
    critical: bool)

  /** Unpacking `s.split(sep, 1)` into two names fails when `sep` is
      missing. */
  datatype CacheError = MissingSeparator(sep: char)

  /** The line `save_entry` writes: `<name> = <user>@<host> #<description>`. */
  function FormatCacheLine(name: string, user: string, host: string, description: string): string {
    name + " = " + user + "@" + host + " #" + description
  }

  /** `[i.strip() for i in s.split(c, 1)]` unpacked into two names. */
  function StripSplit(s: string, c: char): (r: Result<(string, string), CacheError>)
    requires !IsSpace(c)
    ensures r.Failure? <==> c !in s
    ensures r.Failure? ==> r.error == MissingSeparator(c)
    ensures r.Success? ==> c !in r.value.0 && Trimmed(r.value.0) && Trimmed(r.value.1)
  {
    match SplitOnce(s, [c])
    case None => Failure(MissingSeparator(c))
    case Some(halves) => Success((Strip(halves.0), Strip(halves.1)))
  }

  /** `Cache.parse` on the file's text: nothing for a blank file, else the
      one entry the stripped text holds. */
  function ParseCache(text: string): (r: Result<seq<CachedEntry>, CacheError>)
    ensures r == Success([]) <==> AllSpace(text)
    ensures !AllSpace(text) ==> (r.Success? <==> ParseFields(Strip(text)).Success?)
    ensures !AllSpace(text) && r.Success? ==> r.value == [ParseFields(Strip(text)).value]
    ensures r.Failure? ==> r.error == ParseFields(Strip(text)).error
    ensures !AllSpace(text) && '=' !in text ==> r == Failure(MissingSeparator('='))
  {
    var entry := Strip(text);
    assert '=' in entry ==> '=' in text;
    if entry == [] then
      Success([])
    else
      var e :- ParseFields(entry);
      Success([e])
  }

  /** The fields of one non-blank cache line: split at the first `=`, then
      the first `@`, then the first `#`, every piece stripped. */
  function ParseFields(entry: string): (r: Result<CachedEntry, CacheError>)
    ensures r.Success? ==>
              && r.value.critical
              && '=' !in r.value.name && '@' !in r.value.user && '#' !in r.value.host
              && Trimmed(r.value.name) && Trimmed(r.value.user) && Trimmed(r.value.host)
    ensures r.Failure? ==> r.error.sep in "=@#"
    ensures '=' !in entry ==> r == Failure(MissingSeparator('='))
  {
    assert !IsSpace('=') && !IsSpace('@') && !IsSpace('#');
    var nameRest :- StripSplit(entry, '=');
    var userRest :- StripSplit(nameRest.1, '@');
    var hostDesc :- StripSplit(userRest.1, '#');
    var name, user, host, desc := nameRest.0, userRest.0, hostDesc.0, hostDesc.1;
    Success(CachedEntry(desc + ": " + name, name, user, host, true))
  }

  /** A trimmed piece followed by blanks strips back to itself. */
  lemma StripPadded(x: string)
    requires Trimmed(x)
    ensures Strip(x + " ") == x && Strip(" " + x) == x
  {
    StripSpaceSuffix(x, " ");
    StripSpacePrefix(" ", x);
  }

  /** Reading back a saved line gives the saved fields, with the
      description rendered as `<description>: <name>`, provided the fields
      are trimmed and the name, user and host do not contain the separator
      that ends them. */
  lemma CacheRoundTrip(name: string, user: string, host: string, description: string)
    requires Trimmed(name) && Trimmed(user) && Trimmed(host) && Trimmed(description)
    requires '=' !in name && '@' !in user && '#' !in host
    ensures ParseCache(FormatCacheLine(name, user, host, description))
              == Success([CachedEntry(description + ": " + name, name, user, host, true)])
  {
    var line := FormatCacheLine(name, user, host, description);
    var b2 := host + " #" + description;
    var b1 := " " + user + "@" + b2;
    LineCuts(name, user, host, description);
    StripPadded(name);
    StripPadded(user);
    StripPadded(host);
    FieldsChain(line, name + " ", b1, " " + user, b2, host + " ", description);
  }

  /** Where the separators of a saved line fall. */
  lemma LineCuts(name: string, user: string, host: string, description: string)
    ensures FormatCacheLine(name, user, host, description)
              == (name + " ") + ['='] + (" " + user + "@" + (host + " #" + description))
    ensures " " + user + "@" + (host + " #" + description)
              == (" " + user) + ['@'] + (host + " #" + description)
    ensures host + " #" + description == (host + " ") + ['#'] + description
    ensures !AllSpace(FormatCacheLine(name, user, host, description))
  {
    var line := FormatCacheLine(name, user, host, description);
    assert line[|name| + 1] == '=';
  }

  /** The three splits of `ParseFields` on a line cut as
      `a1 = a2 @ a3 # b3` recover the stripped pieces. */
  lemma FieldsChain(line: string, a1: string, b1: string, a2: string, b2: string, a3: string, b3: string)
    requires line == a1 + ['='] + b1 && b1 == a2 + ['@'] + b2 && b2 == a3 + ['#'] + b3
    requires '=' !in a1 && '@' !in a2 && '#' !in a3
    ensures ParseFields(Strip(line))
              == Success(CachedEntry(Strip(b3) + ": " + Strip(a1), Strip(a1), Strip(a2), Strip(a3), true))
  {
    assert !IsSpace('=') && !IsSpace('@') && !IsSpace('#');
    StripSplitHalves(a1, '=', b1);
    StripSplitHalves(a2, '@', b2);
    StripSplitHalves(a3, '#', b3);
  }

  /** Splitting a stripped line at a separator that first occurs at a known
      place yields the stripped pieces on either side. */
  lemma StripSplitHalves(a: string, c: char, b: string)
    requires !IsSpace(c) && c !in a
    ensures StripSplit(Strip(a + [c] + b), c) == Success((Strip(a), Strip(b)))
  {
    StripHalves(a, c, b);
  }

  /** A line whose text after the first `=` has no `@` fails on the user
      split. */
  lemma CacheNeedsAt(a: string, b: string)
    requires '=' !in a && '@' !in b
    ensures ParseCache(a + "=" + b) == Failure(MissingSeparator('@'))
  {
    var line := a + "=" + b;
    assert line == a + ['='] + b;
    assert line[|a|] == '=';
    FieldsNeedAt(a, b);
  }

  lemma FieldsNeedAt(a: string, b: string)
    requires '=' !in a && '@' !in b
    ensures ParseFields(Strip(a + ['='] + b)) == Failure(MissingSeparator('@'))
  {
    assert !IsSpace('=') && !IsSpace('@');
    StripSplitHalves(a, '=', b);
    assert '@' !in Strip(b);
  }

  /** A line whose text after the first `@` that follows the first `=` has
      no `#` fails on the host split. */
  lemma CacheNeedsHash(a: string, u: string, b: string)
    requires '=' !in a && '@' !in u && '#' !in b
    ensures ParseCache(a + "=" + u + "@" + b) == Failure(MissingSeparator('#'))
  {
    var line := a + "=" + u + "@" + b;
    assert line == a + ['='] + (u + ['@'] + b);
    assert line[|a|] == '=';
    FieldsNeedHash(a, u, b);
  }

  lemma FieldsNeedHash(a: string, u: string, b: string)
    requires '=' !in a && '@' !in u && '#' !in b
    ensures ParseFields(Strip(a + ['='] + (u + ['@'] + b))) == Failure(MissingSeparator('#'))
  {
    assert !IsSpace('=') && !IsSpace('@') && !IsSpace('#');
    StripSplitHalves(a, '=', u + ['@'] + b);
    StripSplitHalves(u, '@', b);
    assert '#' !in Strip(b);
  }
}
