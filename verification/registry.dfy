/** The class-level tables of `Marcel::MimeType` (`@ext_overrides`, `@parents`)
    as one immutable catalog value, the MiniMime database they fall back on,
    and `extend`, which registers a type into the catalog. */
module Registry {
  import opened Seqs
  import Hierarchy

  /** What the resolver reads from a registered type: its content type.
      MiniMime's info and the synthetic `OverrideInfo` both provide it. */
  datatype Info = Info(contentType: string)

  /** One MiniMime record: a content type and its default extension. */
  datatype DbEntry = DbEntry(contentType: string, extension: string)

  /** MiniMime, seen as its two lookups: by extension and by content type. */
  datatype Database = Database(byExtension: map<string, DbEntry>, byContentType: map<string, DbEntry>)

  /** `@ext_overrides` (extension to info) and `@parents` (type to its parent types). */
  datatype Catalog = Catalog(overrides: map<string, Info>, parents: Hierarchy.ParentTable)

  /** The state before any `extend` call. */
  const EmptyCatalog := Catalog(map[], map[])

  /** Every parent list that `extend` can produce is non-empty and duplicate-free. */
  predicate WellFormed(c: Catalog) {
    forall t :: t in c.parents ==> |c.parents[t]| > 0 && NoDups(c.parents[t])
  }

  /** The info `extend` stores: MiniMime's own record for `t`, or a synthetic one. */
  function RegisteredInfo(db: Database, t: string): (info: Info)
    ensures t !in db.byContentType ==> info.contentType == t
    ensures t in db.byContentType ==> info.contentType == db.byContentType[t].contentType
  {
    if t in db.byContentType then Info(db.byContentType[t].contentType) else Info(t)
  }

  /** The extensions `extend` writes: those given, then MiniMime's default one for `t`. */
  function RegisteredExtensions(db: Database, t: string, extensions: seq<string>): (exts: seq<string>)
    ensures forall e :: e in extensions ==> e in exts
    ensures t in db.byContentType ==> db.byContentType[t].extension in exts
    ensures forall e :: e in exts ==> e in extensions || (t in db.byContentType && e == db.byContentType[t].extension)
  {
    if t in db.byContentType then extensions + [db.byContentType[t].extension] else extensions
  }

  /** Writes `info` under every key of `keys`, one after the other. */
  function AssignAll(m: map<string, Info>, keys: seq<string>, info: Info): (r: map<string, Info>)
    ensures r.Keys == m.Keys + set k | k in keys
    ensures forall k :: k in keys ==> r[k] == info
    ensures forall k :: k in m && k !in keys ==> r[k] == m[k]
    decreases |keys|
  {
    if |keys| == 0 then m
    else AssignAll(m[keys[0] := info], keys[1..], info)
  }

  /** `extend`: registers the type's extensions and unites its parent list with `parents`. */
  function Extend(c: Catalog, db: Database, t: string, extensions: seq<string>, parents: seq<string>): (r: Catalog)
    // every extension given, and MiniMime's default extension for `t`, now maps to the registered info
    ensures forall e :: e in RegisteredExtensions(db, t, extensions) ==>
              e in r.overrides && r.overrides[e] == RegisteredInfo(db, t)
    // and no other override key is added, removed or changed
    ensures r.overrides.Keys == c.overrides.Keys + set e | e in RegisteredExtensions(db, t, extensions)
    ensures forall e :: e in c.overrides && e !in RegisteredExtensions(db, t, extensions) ==>
              r.overrides[e] == c.overrides[e]
    // the parent table changes at most at `t`
    ensures forall u :: u != t ==> (u in r.parents <==> u in c.parents)
    ensures forall u :: u != t && u in c.parents ==> r.parents[u] == c.parents[u]
    // with no parents given it does not change at all
    ensures |parents| == 0 ==> r.parents == c.parents
    // otherwise `t`'s list becomes the old one united with `parents`
    ensures |parents| > 0 ==> t in r.parents && NoDups(r.parents[t])
    ensures |parents| > 0 ==> forall x :: x in r.parents[t] <==> x in Hierarchy.ParentsOf(c.parents, t) || x in parents
    ensures |parents| > 0 && NoDups(Hierarchy.ParentsOf(c.parents, t)) ==>
              |Hierarchy.ParentsOf(c.parents, t)| <= |r.parents[t]| && r.parents[t][..|Hierarchy.ParentsOf(c.parents, t)|] == Hierarchy.ParentsOf(c.parents, t)
  {
    var overrides := AssignAll(c.overrides, RegisteredExtensions(db, t, extensions), RegisteredInfo(db, t));
    if |parents| > 0 then
      Catalog(overrides, c.parents[t := Union(Hierarchy.ParentsOf(c.parents, t), parents)])
    else
      Catalog(overrides, c.parents)
  }

  /** `extend` keeps the catalog well formed. */
  lemma ExtendWellFormed(c: Catalog, db: Database, t: string, extensions: seq<string>, parents: seq<string>)
    requires WellFormed(c)
    ensures WellFormed(Extend(c, db, t, extensions, parents))
  {
  }

  /** The last registration of an extension wins. */
  lemma ExtendOverwrites(c: Catalog, db: Database, t1: string, exts1: seq<string>, ps1: seq<string>,
                         t2: string, exts2: seq<string>, ps2: seq<string>, e: string)
    requires e in exts1 && e in exts2
    ensures e in Extend(Extend(c, db, t1, exts1, ps1), db, t2, exts2, ps2).overrides
    ensures Extend(Extend(c, db, t1, exts1, ps1), db, t2, exts2, ps2).overrides[e] == RegisteredInfo(db, t2)
  {
  }

  /** Registering parents twice unites them: nothing registered earlier is lost. */
  lemma ExtendUnitesParents(c: Catalog, db: Database, t: string, exts1: seq<string>, ps1: seq<string>,
                            exts2: seq<string>, ps2: seq<string>)
    requires |ps1| > 0
    ensures var r := Extend(Extend(c, db, t, exts1, ps1), db, t, exts2, ps2);
            t in r.parents &&
            forall x :: x in r.parents[t] <==> x in Hierarchy.ParentsOf(c.parents, t) || x in ps1 || x in ps2
  {
  }

  /** Repeating an identical `extend` call changes nothing. */
  lemma {:induction false} ExtendIdempotent(c: Catalog, db: Database, t: string, extensions: seq<string>, parents: seq<string>)
    ensures var once := Extend(c, db, t, extensions, parents);
            Extend(once, db, t, extensions, parents) == once
  {
    var once := Extend(c, db, t, extensions, parents);
    var twice := Extend(once, db, t, extensions, parents);
    assert twice.overrides == once.overrides;
    if |parents| > 0 {
      var u := once.parents[t];
      assert Hierarchy.ParentsOf(once.parents, t) == u;
      UniqAbsorbs(u, parents);
      assert twice.parents[t] == u;
      assert twice.parents == once.parents;
    }
  }

  /** The new parents follow the old ones in the order of their first
      occurrence in `parents`. */
  lemma ExtendParentsOrder(c: Catalog, db: Database, t: string, extensions: seq<string>, parents: seq<string>)
    requires |parents| > 0
    ensures var prior := Hierarchy.ParentsOf(c.parents, t);
            var ps := Extend(c, db, t, extensions, parents).parents[t];
            forall i, j :: 0 <= i < j < |ps| ==> FirstIndex(prior + parents, ps[i]) < FirstIndex(prior + parents, ps[j])
  {
    UnionOrder(Hierarchy.ParentsOf(c.parents, t), parents);
  }
}
