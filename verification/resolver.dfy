/** `Marcel::MimeType.for` and its private helpers: the declared type, the
    file name and the extension give a fallback type, which is then
    reconciled with the type sniffed from the content. */
module Resolver {
  import opened Options
  import opened Strings
  import opened Registry
  import opened Hierarchy

  /** `BINARY`, the answer when nothing else is known. */
  const Binary := "application/octet-stream"

  /** What the sniffer reports for empty content. */
  const EmptyData := "application/x-empty"

  /** Some `/` comes before the first `[;,\s]` of `d`. */
  predicate SlashBeforeSeparator(d: string) {
    exists i :: 0 <= i < |d| && d[i] == '/' && forall j :: 0 <= j < i ==> !IsParamSeparator(d[j])
  }

  /** `parse_media_type`: the lower-cased text before the first
      `;`, `,` or white space, provided it contains a `/`. */
  function ParseMediaType(contentType: Option<string>): (r: Option<string>)
    ensures contentType.None? ==> r.None?
    ensures contentType.Some? ==> (r.Some? <==> SlashBeforeSeparator(Downcase(contentType.value)))
    ensures r.Some? ==> (contentType.Some? &&
              var d := Downcase(contentType.value);
              && |r.value| <= |d| && r.value == d[..|r.value|]
              && (|r.value| == |d| || IsParamSeparator(d[|r.value|])))
    ensures r.Some? ==> '/' in r.value && IsLowercase(r.value)
    ensures r.Some? ==> forall i :: 0 <= i < |r.value| ==> !IsParamSeparator(r.value[i])
  {
    match contentType
    case None => None
    case Some(s) =>
      var d := Downcase(s);
      var head := d[..FirstSeparator(d)];
      if '/' in head then
        Some(head)
      else
        None
  }

  /** A lower-case media type followed by a separator parses to itself. */
  lemma ParseMediaTypeAt(s: string, k: nat)
    requires IsLowercase(s) && k <= |s|
    requires forall i :: 0 <= i < k ==> !IsParamSeparator(s[i])
    requires k == |s| || IsParamSeparator(s[k])
    requires '/' in s[..k]
    ensures ParseMediaType(Some(s)) == Some(s[..k])
  {
    DowncaseOfLowercase(s);
    FirstSeparatorAt(s, k);
  }

  /** Whatever follows the first separator is dropped: `text/html; charset=utf-8`
      parses to `text/html`. */
  lemma ParametersDropped(t: string, params: string)
    requires '/' in t && forall i :: 0 <= i < |t| ==> !IsParamSeparator(t[i])
    requires |params| > 0 && IsParamSeparator(params[0])
    ensures ParseMediaType(Some(t + params)) == Some(Downcase(t))
  {
    var d := Downcase(t + params);
    assert d[..|t|] == Downcase(t);
    var j :| 0 <= j < |t| && t[j] == '/';
    assert d[j] == '/';
    FirstSeparatorAt(d, |t|);
  }

  /** `for_declared_type`: the parsed media type unless it is `BINARY`. */
  function ForDeclaredType(declaredType: Option<string>): (r: Option<string>)
    ensures r.Some? <==> ParseMediaType(declaredType).Some? && ParseMediaType(declaredType).value != Binary
    ensures r.Some? ==> r == ParseMediaType(declaredType)
    ensures r.Some? ==> r.value != Binary && '/' in r.value && IsLowercase(r.value)
  {
    var t := ParseMediaType(declaredType);
    if t.Some? && t.value != Binary then
      DowncaseOfLowercase(t.value);
      Some(Downcase(t.value))
    else
      None
  }

  /** The key `for_extension` looks up: one leading dot removed, then lower-cased. */
  function NormalizeExtension(e: string): (k: string)
    ensures IsLowercase(k)
    ensures |e| > 0 && e[0] == '.' ==> k == Downcase(e[1..])
    ensures (|e| == 0 || e[0] != '.') ==> k == Downcase(e)
  {
    if |e| > 0 && e[0] == '.' then Downcase(e[1..]) else Downcase(e)
  }

  /** `for_extension`: the override table first, then MiniMime. */
  function ForExtension(c: Catalog, db: Database, extension: Option<string>): (r: Option<string>)
    ensures extension.None? ==> r.None?
    ensures r.Some? ==> IsLowercase(r.value)
    ensures extension.Some? && NormalizeExtension(extension.value) in c.overrides ==>
              r == Some(Downcase(c.overrides[NormalizeExtension(extension.value)].contentType))
    ensures extension.Some? && NormalizeExtension(extension.value) !in c.overrides ==>
              (r.Some? <==> NormalizeExtension(extension.value) in db.byExtension)
    ensures extension.Some? && NormalizeExtension(extension.value) !in c.overrides && r.Some? ==>
              r.value == Downcase(db.byExtension[NormalizeExtension(extension.value)].contentType)
  {
    match extension
    case None => None
    case Some(e) =>
      var k := NormalizeExtension(e);
      if k in c.overrides then Some(Downcase(c.overrides[k].contentType))
      else if k in db.byExtension then Some(Downcase(db.byExtension[k].contentType))
      else None
  }

  /** `for_name`: the type of the name's extension, nil when it has none. */
  function ForName(c: Catalog, db: Database, name: Option<string>): (r: Option<string>)
    ensures name.None? ==> r.None?
    ensures name.Some? && ExtName(name.value) == "" ==> r.None?
    ensures name.Some? && ExtName(name.value) != "" ==> r == ForExtension(c, db, Some(ExtName(name.value)))
    ensures r.Some? ==> IsLowercase(r.value)
  {
    match name
    case None => None
    case Some(n) =>
      var e := ExtName(n);
      if e == "" then None else ForExtension(c, db, Some(e))
  }

  /** The last line of `for_data`: the sniffer's "empty" answer counts as no answer. */
  function ForData(sniffed: Option<string>): (r: Option<string>)
    ensures r.Some? ==> r.value != EmptyData
    ensures r.None? <==> sniffed.None? || sniffed.value == EmptyData
    ensures r.Some? ==> r == sniffed
  {
    if sniffed == Some(EmptyData) then None else sniffed
  }

  /** The fallback of `for`: the declared type, else the name's type, else the
      extension's type, else `BINARY`. */
  function Fallback(c: Catalog, db: Database, name: Option<string>, extension: Option<string>,
                    declaredType: Option<string>): (r: string)
    ensures ForDeclaredType(declaredType).Some? ==> r == ForDeclaredType(declaredType).value
    ensures ForDeclaredType(declaredType).None? && ForName(c, db, name).Some? ==>
              r == ForName(c, db, name).value
    ensures (ForDeclaredType(declaredType).None? && ForName(c, db, name).None? &&
             ForExtension(c, db, extension).Some?) ==> r == ForExtension(c, db, extension).value
    ensures (ForDeclaredType(declaredType).None? && ForName(c, db, name).None? &&
             ForExtension(c, db, extension).None?) ==> r == Binary
  {
    ForDeclaredType(declaredType).Or(ForName(c, db, name)).Or(ForExtension(c, db, extension)).GetOr(Binary)
  }

  /** `Marcel::MimeType.for`,
      with the sniffer's answer for `pathname_or_io` passed in as `sniffed`. */
  function For(c: Catalog, ghost rank: map<string, nat>, db: Database, sniffed: Option<string>,
               name: Option<string>, extension: Option<string>, declaredType: Option<string>): (r: string)
    requires ForData(sniffed).Some? ==> Ranked(c.parents, rank)
    ensures ForData(sniffed).None? ==> r == Fallback(c, db, name, extension, declaredType)
    ensures r == Fallback(c, db, name, extension, declaredType) || (ForData(sniffed).Some? && r == sniffed.value)
  {
    var fallback := Fallback(c, db, name, extension, declaredType);
    match ForData(sniffed)
    case Some(data) => MostSpecific(c.parents, rank, data, fallback)
    case None => fallback
  }

  /** A usable declared type decides the answer when there is no content to sniff,
      whatever the name and extension say. */
  lemma DeclaredTypeWins(c: Catalog, rank: map<string, nat>, db: Database, sniffed: Option<string>,
                         name: Option<string>, extension: Option<string>, declared: string)
    requires ForData(sniffed).None?
    requires ParseMediaType(Some(declared)).Some? && ParseMediaType(Some(declared)).value != Binary
    ensures For(c, rank, db, sniffed, name, extension, Some(declared)) == ParseMediaType(Some(declared)).value
  {
  }

  /** Without content and without a usable declared type, the name decides,
      then the extension, then `BINARY`. */
  lemma NameThenExtension(c: Catalog, rank: map<string, nat>, db: Database, sniffed: Option<string>,
                          name: Option<string>, extension: Option<string>, declaredType: Option<string>)
    requires ForData(sniffed).None?
    requires ForDeclaredType(declaredType).None?
    ensures var r := For(c, rank, db, sniffed, name, extension, declaredType);
            && (ForName(c, db, name).Some? ==> r == ForName(c, db, name).value)
            && (ForName(c, db, name).None? && ForExtension(c, db, extension).Some? ==>
                  r == ForExtension(c, db, extension).value)
            && (ForName(c, db, name).None? && ForExtension(c, db, extension).None? ==> r == Binary)
  {
  }

  /** The fallback is `BINARY` only when no declared type was usable. */
  lemma FallbackBinary(c: Catalog, db: Database, name: Option<string>, extension: Option<string>,
                       declaredType: Option<string>)
    ensures Fallback(c, db, name, extension, declaredType) == Binary ==> ForDeclaredType(declaredType).None?
  {
  }

  /** A sniffed "empty" answer is ignored: the result is the one without content. */
  lemma EmptyDataIgnored(c: Catalog, rank: map<string, nat>, db: Database,
                         name: Option<string>, extension: Option<string>, declaredType: Option<string>)
    ensures For(c, rank, db, Some(EmptyData), name, extension, declaredType) ==
            Fallback(c, db, name, extension, declaredType)
  {
  }

  /** With real sniffed content, the fallback wins exactly when it shares an
      ancestor with the sniffed type; otherwise the sniffed type wins. */
  lemma SniffedAgainstFallback(c: Catalog, rank: map<string, nat>, db: Database, sniffed: string,
                               name: Option<string>, extension: Option<string>, declaredType: Option<string>)
    requires Ranked(c.parents, rank)
    requires sniffed != EmptyData
    ensures var fallback := Fallback(c, db, name, extension, declaredType);
            var r := For(c, rank, db, Some(sniffed), name, extension, declaredType);
            && (SameFamily(c.parents, sniffed, fallback) ==> r == fallback)
            && (!SameFamily(c.parents, sniffed, fallback) ==> r == sniffed)
  {
    var fallback := Fallback(c, db, name, extension, declaredType);
    assert For(c, rank, db, Some(sniffed), name, extension, declaredType) ==
           MostSpecific(c.parents, rank, sniffed, fallback);
    MostSpecificByFamily(c.parents, rank, sniffed, fallback);
  }

  /** `for_extension(".PNG") == for_extension("png")`: one leading dot and the
      letter case do not matter. */
  lemma ExtensionNormalisation(c: Catalog, db: Database, e: string)
    requires |e| == 0 || e[0] != '.'
    ensures ForExtension(c, db, Some("." + e)) == ForExtension(c, db, Some(e))
    ensures ForExtension(c, db, Some(Downcase(e))) == ForExtension(c, db, Some(e))
  {
    assert ("." + e)[1..] == e;
    DowncaseIdempotent(e);
  }

  /** Exactly one leading dot is removed: `..x` is looked up as `.x`. */
  lemma NormalizeStripsOneDot(e: string)
    ensures NormalizeExtension("." + e) == Downcase(e)
  {
    assert ("." + e)[1..] == e;
  }

  /** After `extend`, every registered lower-case extension resolves to the registered type. */
  lemma ExtendThenForExtension(c: Catalog, db: Database, t: string, extensions: seq<string>,
                               parents: seq<string>, e: string)
    requires e in RegisteredExtensions(db, t, extensions)
    requires IsLowercase(e) && (|e| == 0 || e[0] != '.')
    ensures ForExtension(Extend(c, db, t, extensions, parents), db, Some(e)) ==
            Some(Downcase(RegisteredInfo(db, t).contentType))
  {
    DowncaseOfLowercase(e);
  }

  /** `extend` keeps the parent graph acyclic when the new parents rank below `t`
      and `t` ranks below every type that already lists it as a parent. */
  lemma ExtendKeepsRanked(c: Catalog, rank: map<string, nat>, db: Database, t: string,
                          extensions: seq<string>, parents: seq<string>)
    requires Ranked(c.parents, rank)
    requires t in rank
    requires forall i :: 0 <= i < |parents| ==> parents[i] in rank && rank[parents[i]] < rank[t]
    requires forall u, i :: u in c.parents && 0 <= i < |c.parents[u]| && c.parents[u][i] == t ==> rank[t] < rank[u]
    ensures Ranked(Extend(c, db, t, extensions, parents).parents, rank)
  {
    var ps := Extend(c, db, t, extensions, parents).parents;
    forall u, i | u in ps && 0 <= i < |ps[u]| && ps[u][i] in ps
      ensures u in rank && ps[u][i] in rank && rank[ps[u][i]] < rank[u]
    {
      var p := ps[u][i];
      if u == t && |parents| > 0 {
        assert p in ParentsOf(c.parents, t) || p in parents;
        if p in parents {
          var j :| 0 <= j < |parents| && parents[j] == p;
        } else {
          var j :| 0 <= j < |c.parents[t]| && c.parents[t][j] == p;
        }
      } else {
        assert ps[u] == c.parents[u];
      }
    }
  }

  /** `for_name("base.ext")` is `for_extension("ext")`. */
  lemma ForNameUsesExtension(c: Catalog, db: Database, base: string, ext: string)
    requires |base| > 0 && base[|base| - 1] != '.' && base[|base| - 1] != '/'
    requires |ext| > 0 && '.' !in ext && '/' !in ext
    ensures ForName(c, db, Some(base + "." + ext)) == ForExtension(c, db, Some(ext))
  {
    ExtNameOfName(base, ext);
    ExtensionNormalisation(c, db, ext);
  }
}
