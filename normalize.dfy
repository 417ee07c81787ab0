/** The record normalizers of convertbibliography.py as functions on a record,
    a map from field name to value. The keys `id` and `type` are fields like
    any other, so the normalizers that rewrite every value rewrite them too.
    The class in records.dfy applies these in place. */
module Normalize {
  import opened Text
  import opened Rewrites

  type Fields = map<string, string>

  /** `if k in record: record[k] = f(record[k])`. */
  function Update(m: Fields, k: string, f: string -> string): (r: Fields)
    ensures r.Keys == m.Keys
    ensures k in m ==> r[k] == f(m[k])
    ensures forall j :: j in m && j != k ==> r[j] == m[j]
  {
    if k in m then m[k := f(m[k])] else m
  }

  /** `if k in record: del record[k]`. */
  function RemoveField(m: Fields, k: string): (r: Fields)
    ensures r.Keys == m.Keys - {k}
    ensures forall j :: j in r ==> r[j] == m[j]
  {
    m - {k}
  }

  /** The fields `m` and `r` agree on, away from the keys in `ks`. */
  ghost predicate SameExcept(m: Fields, r: Fields, ks: set<string>)
  {
    forall j :: j !in ks ==> (j in m <==> j in r) && (j in m ==> r[j] == m[j])
  }

  /** Agreement away from `ks1` and then away from `ks2` is agreement away
      from both. */
  lemma SameExceptTrans(a: Fields, b: Fields, c: Fields, ks1: set<string>, ks2: set<string>)
    requires SameExcept(a, b, ks1) && SameExcept(b, c, ks2)
    ensures SameExcept(a, c, ks1 + ks2)
  {
  }

  lemma UpdateFrame(m: Fields, k: string, f: string -> string)
    ensures SameExcept(m, Update(m, k, f), {k})
  {
  }

  // ---------------------------------------------------------------------------
  // non_page_hyphens (convertbibliography.py:75-89)

  function NonPageHyphens(m: Fields): Fields
  {
    Update(Update(Update(m, "volume", CollapseHyphens), "issue", CollapseHyphens), "number", CollapseHyphens)
  }

  const HyphenFields: set<string> := {"volume", "issue", "number"}

  /** In `volume`, `issue` and `number` every run of hyphens becomes `--`;
      nothing else changes. */
  lemma NonPageHyphensRuns(m: Fields)
    ensures NonPageHyphens(m).Keys == m.Keys
    ensures SameExcept(m, NonPageHyphens(m), HyphenFields)
    ensures forall k :: k in m && k in HyphenFields ==>
      NonPageHyphens(m)[k] == CollapseHyphens(m[k]) && DoubledRuns(NonPageHyphens(m)[k])
  {
    forall k | k in m && k in HyphenFields
      ensures NonPageHyphens(m)[k] == CollapseHyphens(m[k]) && DoubledRuns(NonPageHyphens(m)[k])
    {
      CollapseHyphensDoubled(m[k]);
    }
  }

  lemma NonPageHyphensIdempotent(m: Fields)
    ensures NonPageHyphens(NonPageHyphens(m)) == NonPageHyphens(m)
  {
    var r := NonPageHyphens(m);
    NonPageHyphensRuns(m);
    NonPageHyphensRuns(r);
    forall k | k in r ensures NonPageHyphens(r)[k] == r[k] {
      if k in HyphenFields {
        CollapseHyphensFixpoint(r[k]);
      }
    }
  }

  // ---------------------------------------------------------------------------
  // dashes (convertbibliography.py:92-103)

  /** Every value, `id` and `type` included, has its dashes replaced. */
  function Dashes(m: Fields): (r: Fields)
    ensures r.Keys == m.Keys
  {
    map k | k in m :: ReplaceDashes(m[k])
  }

  /** Afterwards no value holds an en-dash or an em-dash, and a value that held
      none is unchanged. */
  lemma DashesGone(m: Fields)
    ensures Dashes(m).Keys == m.Keys
    ensures forall k :: k in m ==> EnDash !in Dashes(m)[k] && EmDash !in Dashes(m)[k]
    ensures forall k :: k in m && EnDash !in m[k] && EmDash !in m[k] ==> Dashes(m)[k] == m[k]
  {
  }

  lemma DashesIdempotent(m: Fields)
    ensures Dashes(Dashes(m)) == Dashes(m)
  {
    DashesGone(m);
  }

  // ---------------------------------------------------------------------------
  // strip_doi (convertbibliography.py:106-116)

  function StripDoi(m: Fields): Fields
  {
    Update(m, "doi", RemoveResolver)
  }

  /** A resolver in front of the DOI is removed; nothing else changes. */
  lemma StripDoiPrefix(m: Fields, doi: string)
    requires "doi" in m && m["doi"] == Resolver + doi && NoResolver(doi)
    ensures StripDoi(m) == m["doi" := doi]
  {
    RemoveResolverStripsPrefix(doi);
  }

  /** A DOI without a resolver is kept. */
  lemma StripDoiClean(m: Fields)
    requires "doi" in m ==> NoResolver(m["doi"])
    ensures StripDoi(m) == m
  {
  }

  // ---------------------------------------------------------------------------
  // titlecase_name (convertbibliography.py:175-187)

  function TitlecaseName(m: Fields): Fields
  {
    Update(Update(m, "author", TitleName), "editor", TitleName)
  }

  /** `author` and `editor` are title-cased token by token; nothing else
      changes; doing it twice is doing it once. */
  lemma TitlecaseNameFields(m: Fields)
    ensures SameExcept(m, TitlecaseName(m), {"author", "editor"})
    ensures forall k :: k in m && (k == "author" || k == "editor") ==>
      Words(TitlecaseName(m)[k]) == TitleTokens(Words(m[k]))
    ensures TitlecaseName(TitlecaseName(m)) == TitlecaseName(m)
  {
    var r := TitlecaseName(m);
    forall k | k in m && (k == "author" || k == "editor")
      ensures Words(r[k]) == TitleTokens(Words(m[k])) && TitleName(r[k]) == r[k]
    {
      TitleNameTokens(m[k]);
      TitleNameIdempotent(m[k]);
    }
  }

  // ---------------------------------------------------------------------------
  // publisher (convertbibliography.py:190-201)

  /** `re.search('and', ...)`: any occurrence of `and`, inside a word or not. */
  function Publisher(m: Fields): (r: Fields)
    ensures r.Keys == m.Keys
  {
    if "publisher" in m && Contains(m["publisher"], "and") then m["publisher" := Braces(m["publisher"])]
    else m
  }

  /** A publisher containing `and` ends up braced, and a second pass changes
      nothing. */
  lemma PublisherIdempotent(m: Fields)
    ensures Publisher(Publisher(m)) == Publisher(m)
    ensures "publisher" in m && Contains(m["publisher"], "and") ==>
      var p := Publisher(m)["publisher"]; p[0] == '{' && p[|p| - 1] == '}'
    ensures SameExcept(m, Publisher(m), {"publisher"})
  {
    if "publisher" in m && Contains(m["publisher"], "and") {
      BracesContains(m["publisher"], "and");
      BracesIdempotent(m["publisher"]);
    }
  }

  // ---------------------------------------------------------------------------
  // edition (convertbibliography.py:204-219)

  function Edition(m: Fields): Fields
  {
    Update(m, "edition", EditionValue)
  }

  // ---------------------------------------------------------------------------
  // journaltitle (convertbibliography.py:222-233)

  function Journaltitle(m: Fields): Fields
  {
    if "journal" in m then RemoveField(m["journaltitle" := m["journal"]], "journal") else m
  }

  /** `journal` is renamed to `journaltitle`, replacing any `journaltitle`
      there was; without `journal` nothing changes. */
  lemma JournaltitleMoves(m: Fields)
    ensures "journal" !in Journaltitle(m)
    ensures "journal" in m ==> "journaltitle" in Journaltitle(m) && Journaltitle(m)["journaltitle"] == m["journal"]
    ensures "journal" in m ==> Journaltitle(m).Keys == m.Keys - {"journal"} + {"journaltitle"}
    ensures "journal" !in m ==> Journaltitle(m) == m
    ensures SameExcept(m, Journaltitle(m), {"journal", "journaltitle"})
  {
  }

  // ---------------------------------------------------------------------------
  // join_author (convertbibliography.py:255-265)

  /** The library's `author` step deletes an empty `author` and otherwise
      turns the field into a list of names, given here by `split`;
      `join_author` joins that list with ` and `. */
  function JoinAuthor(m: Fields, split: string -> seq<string>): (r: Fields)
    ensures forall j :: j in m && j != "author" ==> j in r && r[j] == m[j]
  {
    if "author" in m && m["author"] == "" then RemoveField(m, "author")
    else Update(m, "author", (s: string) => Join(split(s), " and "))
  }

  /** An empty `author` is dropped and any other is kept; two names are
      joined as `a and b`, one name is kept as it is, and nothing but
      `author` changes. */
  lemma JoinAuthorNames(m: Fields, split: string -> seq<string>)
    ensures SameExcept(m, JoinAuthor(m, split), {"author"})
    ensures "author" in JoinAuthor(m, split) <==> "author" in m && m["author"] != ""
    ensures "author" in m && m["author"] != "" && |split(m["author"])| == 1 ==>
      JoinAuthor(m, split)["author"] == split(m["author"])[0]
    ensures "author" in m && m["author"] != "" && |split(m["author"])| == 2 ==>
      JoinAuthor(m, split)["author"] == split(m["author"])[0] + " and " + split(m["author"])[1]
  {
    if "author" in m && m["author"] != "" && |split(m["author"])| == 2 {
      var ns := split(m["author"]);
      assert Join(ns[1..], " and ") == ns[1];
    }
  }

  // ---------------------------------------------------------------------------
  // booktitle (convertbibliography.py:268-279)

  function Booktitle(m: Fields): Fields
    requires "type" in m
  {
    if m["type"] == "book" && "title" in m then m["booktitle" := m["title"]] else m
  }

  lemma BooktitleCopies(m: Fields)
    requires "type" in m
    ensures SameExcept(m, Booktitle(m), {"booktitle"})
    ensures m["type"] == "book" && "title" in m ==> Booktitle(m)["booktitle"] == m["title"]
    ensures m["type"] != "book" || "title" !in m ==> Booktitle(m) == m
  {
  }

  // ---------------------------------------------------------------------------
  // the remove_* steps and jstor (convertbibliography.py:282-371, 412-426, 491-501)

  function RemovePublisher(m: Fields): Fields
    requires "type" in m
  {
    if m["type"] == "article" then RemoveField(m, "publisher") else m
  }

  const JstorFields: set<string> := {"jstor_articletype", "jstor_formatteddate", "jstor_issuetitle"}

  function Jstor(m: Fields): Fields
  {
    m - JstorFields
  }

  /** Only an article loses its publisher. */
  lemma RemovePublisherOnlyArticles(m: Fields)
    requires "type" in m
    ensures m["type"] == "article" ==> RemovePublisher(m) == m - {"publisher"}
    ensures m["type"] != "article" ==> RemovePublisher(m) == m
    ensures "publisher" !in m ==> RemovePublisher(m) == m
  {
  }

  /** Deleting a field that is absent is a no-op, and every other field stays. */
  lemma RemoveFieldFrame(m: Fields, k: string)
    ensures k !in m ==> RemoveField(m, k) == m
    ensures SameExcept(m, RemoveField(m, k), {k})
    ensures k !in RemoveField(m, k)
  {
  }

  lemma JstorFrame(m: Fields)
    ensures Jstor(m).Keys == m.Keys - JstorFields
    ensures SameExcept(m, Jstor(m), JstorFields)
    ensures (forall k :: k in JstorFields ==> k !in m) ==> Jstor(m) == m
  {
  }

  // ---------------------------------------------------------------------------
  // remove_ampersand (convertbibliography.py:374-390)

  const TitleFields: set<string> := {"booktitle", "journaltitle", "subtitle", "title"}

  function RemoveAmpersand(m: Fields): Fields
  {
    Update(Update(Update(Update(m, "booktitle", RemoveEscapedAmpersand), "journaltitle", RemoveEscapedAmpersand),
      "subtitle", RemoveEscapedAmpersand), "title", RemoveEscapedAmpersand)
  }

  lemma RemoveAmpersandFields(m: Fields)
    ensures RemoveAmpersand(m).Keys == m.Keys
    ensures SameExcept(m, RemoveAmpersand(m), TitleFields)
    ensures forall k :: k in m && k in TitleFields ==> RemoveAmpersand(m)[k] == RemoveEscapedAmpersand(m[k])
  {
    var f := RemoveEscapedAmpersand;
    var m1 := Update(m, "booktitle", f);
    var m2 := Update(m1, "journaltitle", f);
    var m3 := Update(m2, "subtitle", f);
    var r := Update(m3, "title", f);
    assert r == RemoveAmpersand(m);
    forall k | k in m && k in TitleFields ensures r[k] == f(m[k]) {
      if k == "booktitle" {
        assert m1[k] == f(m[k]);
      } else if k == "journaltitle" {
        assert m2[k] == f(m1[k]);
      } else if k == "subtitle" {
        assert m3[k] == f(m2[k]);
      }
    }
  }

  // ---------------------------------------------------------------------------
  // escape_characters (convertbibliography.py:393-409)

  /** Every value, `id` and `type` included, is escaped. */
  function EscapeCharacters(m: Fields): (r: Fields)
    ensures r.Keys == m.Keys
  {
    map k | k in m :: Escape(m[k])
  }

  predicate AllEscaped(s: string)
  {
    Escaped(s, '&') && Escaped(s, '%') && Escaped(s, '_')
  }

  /** Afterwards every `&`, `%` and `_` of every value has a backslash in front,
      and a second pass changes nothing. */
  lemma EscapeCharactersEscapes(m: Fields)
    ensures EscapeCharacters(m).Keys == m.Keys
    ensures forall k :: k in m ==> AllEscaped(EscapeCharacters(m)[k])
    ensures EscapeCharacters(EscapeCharacters(m)) == EscapeCharacters(m)
  {
    var r := EscapeCharacters(m);
    forall k | k in r ensures EscapeCharacters(r)[k] == r[k] {
      EscapeIdempotent(m[k]);
    }
  }

  /** `remove_ampersand` runs right after `escape_characters`, so every `&` of
      the title fields is escaped by then and the two together leave none. */
  lemma EscapeThenRemoveAmpersand(m: Fields)
    ensures forall k :: k in m && k in TitleFields ==> '&' !in RemoveAmpersand(EscapeCharacters(m))[k]
  {
    var e := EscapeCharacters(m);
    RemoveAmpersandFields(e);
    forall k | k in m && k in TitleFields ensures '&' !in RemoveAmpersand(e)[k] {
      RemoveEscapedAmpersandClears(e[k]);
    }
  }

  /** `escape_characters` followed by `remove_ampersand`, as `customizations`
      runs them. */
  function EscapeThenConvert(m: Fields): (r: Fields)
    ensures r.Keys == m.Keys
    ensures forall k :: k in TitleFields && k in r ==> '&' !in r[k]
  {
    EscapeThenRemoveAmpersand(m);
    RemoveAmpersandFields(EscapeCharacters(m));
    RemoveAmpersand(EscapeCharacters(m))
  }

  // ---------------------------------------------------------------------------
  // remove_pp (convertbibliography.py:429-439)

  function RemovePages(m: Fields): Fields
  {
    Update(m, "pages", RemovePp)
  }

  /** Afterwards `pages` holds no `p` or `P` and no surrounding whitespace; a
      second pass changes nothing. */
  lemma RemovePagesClean(m: Fields)
    ensures SameExcept(m, RemovePages(m), {"pages"})
    ensures "pages" in m ==> var p := RemovePages(m)["pages"];
      (forall i :: 0 <= i < |p| ==> !IsP(p[i])) && (p == [] || (!IsSpace(p[0]) && !IsSpace(p[|p| - 1])))
    ensures RemovePages(RemovePages(m)) == RemovePages(m)
  {
    if "pages" in m {
      RemovePpIdempotent(m["pages"]);
    }
  }

  // ---------------------------------------------------------------------------
  // protect_capitalisation (convertbibliography.py:456-470)

  /** `protect` takes the first word of the value, so a value without words
      makes the source fail. */
  predicate Protectable(m: Fields, k: string)
  {
    k in m ==> |Words(m[k])| >= 1
  }

  function ProtectField(m: Fields, k: string): (r: Fields)
    requires Protectable(m, k)
    ensures r.Keys == m.Keys
    ensures forall j :: j in m && j != k ==> r[j] == m[j]
  {
    if k in m then m[k := Protect(m[k])] else m
  }

  function ProtectCapitalisation(m: Fields): Fields
    requires Protectable(m, "title") && Protectable(m, "subtitle") && Protectable(m, "booktitle")
  {
    ProtectField(ProtectField(ProtectField(m, "title"), "subtitle"), "booktitle")
  }

  /** The three title fields are protected and nothing else changes. */
  lemma ProtectCapitalisationFields(m: Fields)
    requires Protectable(m, "title") && Protectable(m, "subtitle") && Protectable(m, "booktitle")
    ensures SameExcept(m, ProtectCapitalisation(m), {"title", "subtitle", "booktitle"})
    ensures forall k :: k in m && (k == "title" || k == "subtitle" || k == "booktitle") ==>
      ProtectCapitalisation(m)[k] == Protect(m[k])
  {
  }

  /** A field that is already protected is left as it is. */
  lemma ProtectFieldAgain(m: Fields, r: Fields, k: string)
    requires Protectable(m, k) && r.Keys == m.Keys
    requires k in m ==> r[k] == Protect(m[k])
    ensures Protectable(r, k) && ProtectField(r, k) == r
  {
    if k in m {
      ProtectIdempotent(m[k]);
      assert r[k := Protect(r[k])] == r;
    }
  }

  /** Protecting twice is protecting once. */
  lemma ProtectCapitalisationIdempotent(m: Fields)
    requires Protectable(m, "title") && Protectable(m, "subtitle") && Protectable(m, "booktitle")
    ensures var r := ProtectCapitalisation(m);
      Protectable(r, "title") && Protectable(r, "subtitle") && Protectable(r, "booktitle") &&
      ProtectCapitalisation(r) == r
  {
    var r := ProtectCapitalisation(m);
    ProtectCapitalisationFields(m);
    ProtectFieldAgain(m, r, "title");
    ProtectFieldAgain(m, r, "subtitle");
    ProtectFieldAgain(m, r, "booktitle");
  }

  // ---------------------------------------------------------------------------
  // multivolume (convertbibliography.py:473-488)

  function Multivolume(m: Fields): (r: Fields)
    requires "type" in m
    ensures r.Keys == m.Keys
  {
    if m["type"] == "book" && "volume" in m then m["type" := "mvbook"]
    else if m["type"] == "collection" && "volume" in m then m["type" := "mvcollection"]
    else m
  }

  /** Only `type` changes, and only a book or a collection with a volume. */
  lemma MultivolumeType(m: Fields)
    requires "type" in m
    ensures SameExcept(m, Multivolume(m), {"type"}) && "type" in Multivolume(m)
    ensures Multivolume(m)["type"] != m["type"] <==>
      "volume" in m && (m["type"] == "book" || m["type"] == "collection")
    ensures "volume" in m && m["type"] == "book" ==> Multivolume(m)["type"] == "mvbook"
    ensures "volume" in m && m["type"] == "collection" ==> Multivolume(m)["type"] == "mvcollection"
  {
  }

  // ---------------------------------------------------------------------------
  // case_title (convertbibliography.py:236-252); `titlecase` is a library call

  function CaseTitle(m: Fields, titlecase: string -> string): Fields
  {
    Update(Update(Update(m, "title", titlecase), "subtitle", titlecase), "booktitle", titlecase)
  }
}
