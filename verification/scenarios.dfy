/** Worked examples of the resolution rules on small concrete tables. */
module Scenarios {
  import opened Options
  import opened Strings
  import opened Registry
  import opened Hierarchy
  import opened Resolver
  import opened Seqs

  /** A MiniMime database that knows nothing. */
  const NoDb := Database(map[], map[])

  /** A MiniMime database that knows PNG. */
  const PngDb := Database(map["png" := DbEntry("image/png", "png")], map["image/png" := DbEntry("image/png", "png")])

  /** `extend "application/json", extensions: %w( json )`, then `for extension: "json"`. */
  lemma RegisteredExtensionResolves()
    ensures var c := Extend(EmptyCatalog, NoDb, "application/json", ["json"], []);
            Ranked(c.parents, map[]) &&
            For(c, map[], NoDb, None, None, Some("json"), None) == "application/json"
  {
    var c := Extend(EmptyCatalog, NoDb, "application/json", ["json"], []);
    ExtendThenForExtension(EmptyCatalog, NoDb, "application/json", ["json"], [], "json");
    DowncaseOfLowercase("application/json");
    assert ForExtension(c, NoDb, Some("json")) == Some("application/json");
    assert ForDeclaredType(None) == None;
    assert ForName(c, NoDb, None) == None;
    assert Fallback(c, NoDb, None, Some("json"), None) == "application/json";
  }

  /** Media-type parameters are dropped from a declared type. */
  lemma DeclaredParametersDropped()
    ensures For(EmptyCatalog, map[], NoDb, None, None, None, Some("text/html; charset=utf-8")) == "text/html"
  {
    HtmlWithCharset();
    assert "text/html" != Binary by { assert |"text/html"| != |Binary|; }
  }

  /** The parameters of a concrete content type are dropped. */
  lemma HtmlWithCharset()
    ensures ParseMediaType(Some("text/html; charset=utf-8")) == Some("text/html")
  {
    var t, params := "text/html", "; charset=utf-8";
    DowncaseOfLowercase(t);
    assert t + params == "text/html; charset=utf-8";
    assert t[4] == '/';
    assert forall i :: 0 <= i < |t| ==> !IsParamSeparator(t[i]);
    ParametersDropped(t, params);
  }

  /** With nothing to go on the answer is `BINARY`; empty content does not change that. */
  lemma NothingKnownIsBinary()
    ensures For(EmptyCatalog, map[], NoDb, None, None, None, None) == Binary
    ensures For(EmptyCatalog, map[], NoDb, Some(EmptyData), None, None, None) == Binary
  {
  }

  /** A declared `BINARY` is ignored. */
  lemma BinaryDeclarationIsNone()
    ensures ForDeclaredType(Some(Binary)) == None
  {
    var s := Binary;
    assert s[..24] == s;
    assert s[11] == '/';
    ParseMediaTypeAt(s, 24);
  }

  lemma PngExtension()
    ensures ForExtension(EmptyCatalog, PngDb, Some("png")) == Some("image/png")
  {
    DowncaseOfLowercase("png");
    DowncaseOfLowercase("image/png");
  }

  /** A declared `BINARY` is ignored, and PNG content agrees with the `png` extension. */
  lemma BinaryDeclarationIgnored()
    ensures For(EmptyCatalog, map[], PngDb, Some("image/png"), None, Some("png"), Some(Binary)) == "image/png"
  {
    BinaryDeclarationIsNone();
    PngExtension();
    assert Fallback(EmptyCatalog, PngDb, None, Some("png"), Some(Binary)) == "image/png";
    MostSpecificSame(EmptyCatalog.parents, map[], "image/png");
  }

  /** A type with one parent and no grandparents has that parent as its root. */
  lemma SingleParentRoot(ps: ParentTable, rank: map<string, nat>, t: string, p: string)
    requires Ranked(ps, rank)
    requires t in ps && ps[t] == [p] && !HasParents(ps, p)
    ensures RootTypes(ps, rank, t) == [p]
  {
    assert FlatRoots(ps, rank, t, 1) == [];
    assert FlatRoots(ps, rank, t, 0) == [p];
    assert Uniq([p]) == [p];
  }

  const Diamond: ParentTable := map["t" := ["p1", "p2"], "p1" := ["root"], "p2" := ["root"]]
  const DiamondRank: map<string, nat> := map["t" := 2, "p1" := 1, "p2" := 1]

  lemma DiamondRanked()
    ensures Ranked(Diamond, DiamondRank)
  {
  }

  /** Two parents sharing one root give that root once. */
  lemma DiamondRoots(ps: ParentTable, rank: map<string, nat>, t: string, p1: string, p2: string, root: string)
    requires Ranked(ps, rank)
    requires t in ps && ps[t] == [p1, p2]
    requires p1 in ps && ps[p1] == [root] && p2 in ps && ps[p2] == [root]
    requires !HasParents(ps, root)
    ensures RootTypes(ps, rank, t) == [root]
  {
    SingleParentRoot(ps, rank, p1, root);
    SingleParentRoot(ps, rank, p2, root);
    assert FlatRoots(ps, rank, t, 2) == [];
    assert FlatRoots(ps, rank, t, 1) == [root];
    assert FlatRoots(ps, rank, t, 0) == [root, root];
    UniqTwice(root);
  }

  lemma DiamondHasOneRoot()
    ensures Ranked(Diamond, DiamondRank) && RootTypes(Diamond, DiamondRank, "t") == ["root"]
  {
    DiamondRanked();
    DiamondRoots(Diamond, DiamondRank, "t", "p1", "p2", "root");
  }

  lemma UniqTwice(x: string)
    ensures Uniq([x, x]) == [x]
  {
    assert [x, x][..1] == [x];
    assert Uniq([x]) == [x];
  }

  /** `extend "application/json", parents: "text/plain"` on an empty catalog. */
  lemma JsonUnderText()
    ensures Extend(EmptyCatalog, NoDb, "application/json", [], ["text/plain"]) ==
            Catalog(map[], map["application/json" := ["text/plain"]])
  {
    UniqOfNoDups(["text/plain"]);
    assert [] + ["text/plain"] == ["text/plain"];
  }

  /** A plain declared type is the fallback, whatever the tables hold. */
  lemma DeclaredJson(c: Catalog, db: Database)
    ensures Fallback(c, db, None, None, Some("application/json")) == "application/json"
  {
    var s := "application/json";
    assert s[..16] == s;
    assert s[11] == '/';
    ParseMediaTypeAt(s, 16);
  }

  /** A sniffed `text/plain` does not override a declared type registered below it. */
  lemma SniffedParentLoses()
    ensures var c := Extend(EmptyCatalog, NoDb, "application/json", [], ["text/plain"]);
            var rank := map["application/json" := 0];
            Ranked(c.parents, rank) &&
            For(c, rank, NoDb, Some("text/plain"), None, None, Some("application/json")) == "application/json"
  {
    JsonUnderText();
    var s := "application/json";
    var c := Catalog(map[], map[s := ["text/plain"]]);
    var rank := map[s := 0];
    assert Ranked(c.parents, rank);
    DeclaredJson(c, NoDb);
    ReachesParent(c.parents, s, "text/plain");
    MostSpecificAncestry(c.parents, rank, "text/plain", s);
    SniffedAgainstFallback(c, rank, NoDb, "text/plain", None, None, Some(s));
  }

  /** A sniffed `image/png` overrides an unrelated declared `text/plain`. */
  lemma UnrelatedSniffWins()
    ensures For(EmptyCatalog, map[], NoDb, Some("image/png"), None, None, Some("text/plain")) == "image/png"
  {
    DeclaredText(EmptyCatalog, NoDb);
    assert RootTypes(map[], map[], "image/png") == ["image/png"];
    assert RootTypes(map[], map[], "text/plain") == ["text/plain"];
    assert MostSpecific(map[], map[], "image/png", "text/plain") == "image/png";
  }

  lemma DeclaredText(c: Catalog, db: Database)
    ensures Fallback(c, db, None, None, Some("text/plain")) == "text/plain"
  {
    var s := "text/plain";
    assert s[..10] == s;
    assert s[4] == '/';
    ParseMediaTypeAt(s, 10);
  }
}
