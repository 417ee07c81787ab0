/** A record of convertbibliography.py as an object whose normalizers change
    its fields in place, `get_doi` with the CrossRef API as a parameter, and
    the fixed order in which `customizations` applies the steps. */
module Records {
  import opened Text
  import opened Rewrites
  import opened Normalize

  // ---------------------------------------------------------------------------
  // get_doi (convertbibliography.py:119-172)

  datatype Option<T> = None | Some(value: T)

  /** What a POST to the CrossRef links API gives back: no connection, or a
      status code with the `doi` of the first result (`None` when the result
      list is empty, which raises the `IndexError` the source catches). */
  datatype Reply = ConnectionError | Answer(status: int, firstDoi: Option<string>)

  const StatusOk: int := 200

  /** The search text: the title, then a space and the author. */
  function DoiQuery(m: Fields): (q: string)
    ensures "title" !in m && "author" !in m ==> q == ""
    ensures "author" in m ==> q != ""
  {
    (if "title" in m then m["title"] else "") + (if "author" in m then " " + m["author"] else "")
  }

  /** An article without a DOI, with something to search for, is sent to the
      API. */
  predicate DoiQueried(m: Fields)
    requires "type" in m
  {
    m["type"] == "article" && "doi" !in m && DoiQuery(m) != ""
  }

  /** A run of `get_doi` ends with a record, or with an exception the source
      does not catch. */
  datatype Outcome = Finished(fields: Fields) | Raised(error: string)

  /** `get_doi` as written: both messages print `record["id"]`, and a good
      status code makes it evaluate `hodgson.remove_resolver`, a name the
      module never defines, before the API's answer is looked at. */
  function GetDoiAsWritten(m: Fields, api: string -> Reply): (o: Outcome)
    requires "type" in m
    ensures !DoiQueried(m) ==> o == Finished(m)
  {
    if !DoiQueried(m) then Finished(m)
    else
      match api(DoiQuery(m))
      case ConnectionError => if "id" in m then Finished(m) else Raised("KeyError")
      case Answer(status, _) =>
        if "id" !in m then Raised("KeyError")
        else if status == StatusOk then Raised("NameError")
        else Finished(m)
  }

  /** Whenever the API answers with a good status code, `get_doi` as written
      fails, whatever the answer holds. */
  lemma GetDoiAsWrittenFailsOnSuccess(m: Fields, api: string -> Reply)
    requires "type" in m && "id" in m && DoiQueried(m)
    requires api(DoiQuery(m)).Answer? && api(DoiQuery(m)).status == StatusOk
    ensures GetDoiAsWritten(m, api) == Raised("NameError")
  {
  }

  /** The smallest such input: an article with a title and an API that finds
      a DOI. */
  lemma GetDoiAsWrittenCounterexample()
    ensures GetDoiAsWritten(map["id" := "a", "type" := "article", "title" := "T"],
      (q: string) => Answer(StatusOk, Some("10.1/x"))) == Raised("NameError")
  {
    var m := map["id" := "a", "type" := "article", "title" := "T"];
    assert DoiQuery(m) == "T";
  }

  /** `get_doi` as intended: a good answer's DOI, with the resolver removed,
      becomes the record's `doi`; every other outcome leaves the record alone.
      Both messages of the source print `record["id"]`, so a queried record must
      have one. */
  function GetDoiCorrected(m: Fields, api: string -> Reply): (r: Fields)
    requires "type" in m && (DoiQueried(m) ==> "id" in m)
    ensures SameExcept(m, r, {"doi"})
    ensures "doi" in m ==> r == m
    ensures "doi" in r && "doi" !in m <==>
      DoiQueried(m) && api(DoiQuery(m)).Answer? && api(DoiQuery(m)).status == StatusOk &&
      api(DoiQuery(m)).firstDoi.Some?
    ensures "doi" in r && "doi" !in m ==> r["doi"] == RemoveResolver(api(DoiQuery(m)).firstDoi.value)
  {
    if !DoiQueried(m) then m
    else
      match api(DoiQuery(m))
      case Answer(status, Some(doi)) =>
        if status == StatusOk then m["doi" := RemoveResolver(doi)] else m
      case _ => m
  }

  /** Where the source does not fail, the corrected step gives the same record,
      except that a good answer now sets the DOI. */
  lemma GetDoiAgrees(m: Fields, api: string -> Reply)
    requires "type" in m && (DoiQueried(m) ==> "id" in m)
    ensures GetDoiAsWritten(m, api).Finished? ==> GetDoiAsWritten(m, api).fields == GetDoiCorrected(m, api)
  {
  }

  // ---------------------------------------------------------------------------
  // customizations (convertbibliography.py:504-527)

  /** The library steps, which the model does not see into: bibtexparser's
      `author` (the list of names it makes of the field, which `join_author`
      joins again), the `titlecase` package, `convert_to_unicode`,
      `page_double_hyphen`, and the CrossRef API. */
  datatype Library = Library(
    splitAuthor: string -> seq<string>,
    titlecase: string -> string,
    toUnicode: Fields -> Fields,
    pageDoubleHyphen: Fields -> Fields,
    api: string -> Reply)

  /** The library steps keep the `id` and `type` fields that the parser gives
      every record. */
  ghost predicate KeepsIdentity(f: Fields -> Fields)
  {
    forall m: Fields :: "type" in m && "id" in m ==> "type" in f(m) && "id" in f(m)
  }

  /** Lines 510-514: names, titles and the conversion to Unicode. */
  function Prepare(m: Fields, lib: Library): (r: Fields)
    requires "type" in m && "id" in m && KeepsIdentity(lib.toUnicode)
    ensures "type" in r && "id" in r
  {
    lib.toUnicode(CaseTitle(TitlecaseName(JoinAuthor(m, lib.splitAuthor)), lib.titlecase))
  }

  /** Lines 515-521: field names, hyphens, dashes, pages and escapes. */
  function Clean(m: Fields, lib: Library): (r: Fields)
    requires "type" in m && "id" in m && KeepsIdentity(lib.pageDoubleHyphen)
    ensures "type" in r && "id" in r
    ensures forall k :: k in TitleFields && k in r ==> '&' !in r[k]
  {
    var m5 := Journaltitle(m);
    assert "type" in m5 && "id" in m5;
    var m6 := NonPageHyphens(m5);
    assert "type" in m6 && "id" in m6;
    var m7 := Dashes(m6);
    var m8 := lib.pageDoubleHyphen(m7);
    assert "type" in m8 && "id" in m8;
    var m9 := RemovePages(m8);
    assert "type" in m9 && "id" in m9;
    EscapeThenConvert(m9)
  }

  /** Lines 522-526: edition, type, publisher and DOI. */
  function Complete(m: Fields, lib: Library): (r: Fields)
    requires "type" in m && "id" in m
    ensures "type" in r && "id" in r
    ensures SameExcept(m, r, {"edition", "type", "publisher", "doi"})
  {
    var m12 := Edition(m);
    UpdateFrame(m, "edition", EditionValue);
    assert "type" in m12 && "id" in m12;
    var m13 := Multivolume(m12);
    MultivolumeType(m12);
    SameExceptTrans(m, m12, m13, {"edition"}, {"type"});
    assert "type" in m13 && "id" in m13;
    var m14 := Publisher(m13);
    PublisherIdempotent(m13);
    SameExceptTrans(m, m13, m14, {"edition", "type"}, {"publisher"});
    assert "type" in m14 && "id" in m14;
    var m15 := GetDoiCorrected(m14, lib.api);
    SameExceptTrans(m, m14, m15, {"edition", "type", "publisher"}, {"doi"});
    var r := StripDoi(m15);
    UpdateFrame(m15, "doi", RemoveResolver);
    SameExceptTrans(m, m15, r, {"edition", "type", "publisher", "doi"}, {"doi"});
    assert {"edition", "type", "publisher", "doi"} + {"doi"} == {"edition", "type", "publisher", "doi"};
    r
  }

  /** The steps in the order `customizations` applies them. The steps after
      `remove_ampersand` leave the title fields alone, so a customized record
      has no `&` in any of them. */
  function Customize(m: Fields, lib: Library): (r: Fields)
    requires "type" in m && "id" in m
    requires KeepsIdentity(lib.toUnicode) && KeepsIdentity(lib.pageDoubleHyphen)
    ensures "id" in r && "type" in r
    ensures forall k :: k in TitleFields && k in r ==> '&' !in r[k]
  {
    var p := Prepare(m, lib);
    var c := Clean(p, lib);
    var r := Complete(c, lib);
    TitlesKept(c, r);
    r
  }

  lemma TitlesKept(c: Fields, r: Fields)
    requires SameExcept(c, r, {"edition", "type", "publisher", "doi"})
    requires forall k :: k in TitleFields && k in c ==> '&' !in c[k]
    ensures forall k :: k in TitleFields && k in r ==> '&' !in r[k]
  {
  }

  // ---------------------------------------------------------------------------
  // the record, changed in place

  class Record {
    var fields: Fields

    constructor (fields: Fields)
      ensures this.fields == fields
    {
      this.fields := fields;
    }

    method NonPageHyphens()
      modifies this
      ensures fields == Normalize.NonPageHyphens(old(fields))
    {
      if "volume" in fields {
        fields := fields["volume" := CollapseHyphens(fields["volume"])];
      }
      if "issue" in fields {
        fields := fields["issue" := CollapseHyphens(fields["issue"])];
      }
      if "number" in fields {
        fields := fields["number" := CollapseHyphens(fields["number"])];
      }
    }

    /** Visits every key once; the order of the visits does not matter. */
    method Dashes()
      modifies this
      ensures fields == Normalize.Dashes(old(fields))
    {
      var todo := fields.Keys;
      while todo != {}
        invariant fields.Keys == old(fields).Keys && todo <= fields.Keys
        invariant forall k :: k in fields ==>
          fields[k] == if k in todo then old(fields)[k] else ReplaceDashes(old(fields)[k])
        decreases todo
      {
        var k :| k in todo;
        var v := ReplaceChar(fields[k], EnDash, "--");
        fields := fields[k := ReplaceChar(v, EmDash, "---")];
        todo := todo - {k};
      }
    }

    method StripDoi()
      modifies this
      ensures fields == Normalize.StripDoi(old(fields))
    {
      if "doi" in fields {
        fields := fields["doi" := RemoveResolver(fields["doi"])];
      }
    }

    /** `get_doi` as intended; the API is a parameter. */
    method GetDoi(api: string -> Reply)
      requires "type" in fields && (DoiQueried(fields) ==> "id" in fields)
      modifies this
      ensures fields == GetDoiCorrected(old(fields), api)
    {
      if fields["type"] == "article" && "doi" !in fields {
        var query := "";
        if "title" in fields {
          query := query + fields["title"];
        }
        if "author" in fields {
          query := query + " " + fields["author"];
        }
        assert query == DoiQuery(fields);
        if query != "" {
          var reply := api(query);
          if reply.Answer? && reply.status == StatusOk && reply.firstDoi.Some? {
            fields := fields["doi" := RemoveResolver(reply.firstDoi.value)];
          }
        }
      }
    }

    method TitlecaseName()
      modifies this
      ensures fields == Normalize.TitlecaseName(old(fields))
    {
      if "author" in fields {
        fields := fields["author" := TitleName(fields["author"])];
      }
      if "editor" in fields {
        fields := fields["editor" := TitleName(fields["editor"])];
      }
    }

    method Publisher()
      modifies this
      ensures fields == Normalize.Publisher(old(fields))
    {
      if "publisher" in fields {
        if Contains(fields["publisher"], "and") {
          fields := fields["publisher" := Braces(fields["publisher"])];
        }
      }
    }

    method Edition()
      modifies this
      ensures fields == Normalize.Edition(old(fields))
    {
      if "edition" in fields {
        var w := Strip(Lower(fields["edition"]));
        if w in WordsToNumerals {
          fields := fields["edition" := WordsToNumerals[w]];
        } else if HasNumberedOrdinal(w) {
          fields := fields["edition" := RemoveOrdinalSuffixes(w)];
        }
      }
    }

    method Journaltitle()
      modifies this
      ensures fields == Normalize.Journaltitle(old(fields))
    {
      if "journal" in fields {
        fields := fields["journaltitle" := fields["journal"]];
        fields := fields - {"journal"};
      }
    }

    /** The library's `author` step, given by `split`, then `join_author`:
        an empty `author` is deleted. */
    method JoinAuthor(split: string -> seq<string>)
      modifies this
      ensures fields == Normalize.JoinAuthor(old(fields), split)
    {
      if "author" in fields {
        if fields["author"] == "" {
          fields := fields - {"author"};
        } else {
          fields := fields["author" := Join(split(fields["author"]), " and ")];
        }
      }
    }

    method CaseTitle(titlecase: string -> string)
      modifies this
      ensures fields == Normalize.CaseTitle(old(fields), titlecase)
    {
      if "title" in fields {
        fields := fields["title" := titlecase(fields["title"])];
      }
      if "subtitle" in fields {
        fields := fields["subtitle" := titlecase(fields["subtitle"])];
      }
      if "booktitle" in fields {
        fields := fields["booktitle" := titlecase(fields["booktitle"])];
      }
    }

    method Booktitle()
      requires "type" in fields
      modifies this
      ensures fields == Normalize.Booktitle(old(fields))
    {
      if fields["type"] == "book" {
        if "title" in fields {
          fields := fields["booktitle" := fields["title"]];
        }
      }
    }

    /** The shared body of the `remove_*` steps. */
    method RemoveField(k: string)
      modifies this
      ensures fields == Normalize.RemoveField(old(fields), k)
    {
      if k in fields {
        fields := fields - {k};
      }
    }

    method RemoveAbstract()
      modifies this
      ensures fields == old(fields) - {"abstract"}
    {
      RemoveField("abstract");
    }

    method RemoveIssn()
      modifies this
      ensures fields == old(fields) - {"issn"}
    {
      RemoveField("issn");
    }

    method RemoveIsbn()
      modifies this
      ensures fields == old(fields) - {"isbn"}
    {
      RemoveField("isbn");
    }

    method RemoveCopyright()
      modifies this
      ensures fields == old(fields) - {"copyright"}
    {
      RemoveField("copyright");
    }

    method RemoveLanguage()
      modifies this
      ensures fields == old(fields) - {"language"}
    {
      RemoveField("language");
    }

    method RemoveLink()
      modifies this
      ensures fields == old(fields) - {"link"}
    {
      RemoveField("link");
    }

    method RemoveBooktitle()
      modifies this
      ensures fields == old(fields) - {"booktitle"}
    {
      RemoveField("booktitle");
    }

    method RemovePublisher()
      requires "type" in fields
      modifies this
      ensures fields == Normalize.RemovePublisher(old(fields))
    {
      if fields["type"] == "article" {
        RemoveField("publisher");
      }
    }

    method Jstor()
      modifies this
      ensures fields == Normalize.Jstor(old(fields))
    {
      RemoveField("jstor_articletype");
      RemoveField("jstor_formatteddate");
      RemoveField("jstor_issuetitle");
    }

    method RemoveAmpersand()
      modifies this
      ensures fields == Normalize.RemoveAmpersand(old(fields))
    {
      if "booktitle" in fields {
        fields := fields["booktitle" := RemoveEscapedAmpersand(fields["booktitle"])];
      }
      if "journaltitle" in fields {
        fields := fields["journaltitle" := RemoveEscapedAmpersand(fields["journaltitle"])];
      }
      if "subtitle" in fields {
        fields := fields["subtitle" := RemoveEscapedAmpersand(fields["subtitle"])];
      }
      if "title" in fields {
        fields := fields["title" := RemoveEscapedAmpersand(fields["title"])];
      }
    }

    /** Visits every key once and escapes `&`, `%` and `_` in that order. */
    method EscapeCharacters()
      modifies this
      ensures fields == Normalize.EscapeCharacters(old(fields))
    {
      var todo := fields.Keys;
      while todo != {}
        invariant fields.Keys == old(fields).Keys && todo <= fields.Keys
        invariant forall k :: k in fields ==>
          fields[k] == if k in todo then old(fields)[k] else Escape(old(fields)[k])
        decreases todo
      {
        var k :| k in todo;
        var chars := ['&', '%', '_'];
        var v := fields[k];
        for i := 0 to 3
          invariant i == 0 ==> v == old(fields)[k]
          invariant i == 1 ==> v == EscapeChar(old(fields)[k], '&')
          invariant i == 2 ==> v == EscapeChar(EscapeChar(old(fields)[k], '&'), '%')
          invariant i == 3 ==> v == Escape(old(fields)[k])
        {
          v := EscapeChar(v, chars[i]);
        }
        fields := fields[k := v];
        todo := todo - {k};
      }
    }

    method RemovePp()
      modifies this
      ensures fields == Normalize.RemovePages(old(fields))
    {
      if "pages" in fields {
        fields := fields["pages" := Rewrites.RemovePp(fields["pages"])];
      }
    }

    method ProtectCapitalisation()
      requires Protectable(fields, "title") && Protectable(fields, "subtitle") && Protectable(fields, "booktitle")
      modifies this
      ensures fields == Normalize.ProtectCapitalisation(old(fields))
    {
      if "title" in fields {
        fields := fields["title" := Protect(fields["title"])];
      }
      if "subtitle" in fields {
        fields := fields["subtitle" := Protect(fields["subtitle"])];
      }
      if "booktitle" in fields {
        fields := fields["booktitle" := Protect(fields["booktitle"])];
      }
    }

    method Multivolume()
      requires "type" in fields
      modifies this
      ensures fields == Normalize.Multivolume(old(fields))
    {
      if fields["type"] == "book" {
        if "volume" in fields {
          fields := fields["type" := "mvbook"];
        }
      } else if fields["type"] == "collection" {
        if "volume" in fields {
          fields := fields["type" := "mvcollection"];
        }
      }
    }

    /** Lines 510-514 of `customizations`. */
    method PrepareSteps(lib: Library)
      requires "type" in fields && "id" in fields && KeepsIdentity(lib.toUnicode)
      modifies this
      ensures fields == Prepare(old(fields), lib)
    {
      JoinAuthor(lib.splitAuthor);
      TitlecaseName();
      CaseTitle(lib.titlecase);
      fields := lib.toUnicode(fields);
    }

    /** Lines 515-521 of `customizations`. */
    method CleanSteps(lib: Library)
      requires "type" in fields && "id" in fields && KeepsIdentity(lib.pageDoubleHyphen)
      modifies this
      ensures fields == Clean(old(fields), lib)
    {
      Journaltitle();
      NonPageHyphens();
      Dashes();
      fields := lib.pageDoubleHyphen(fields);
      RemovePp();
      ghost var m9 := fields;
      EscapeCharacters();
      RemoveAmpersand();
      assert fields == EscapeThenConvert(m9);
    }

    /** Lines 522-526 of `customizations`. */
    method CompleteSteps(lib: Library)
      requires "type" in fields && "id" in fields
      modifies this
      ensures fields == Complete(old(fields), lib)
    {
      Edition();
      Multivolume();
      Publisher();
      GetDoi(lib.api);
      StripDoi();
    }

    /** The steps of `customizations`, in its order, on this record. */
    method Customizations(lib: Library)
      requires "type" in fields && "id" in fields
      requires KeepsIdentity(lib.toUnicode) && KeepsIdentity(lib.pageDoubleHyphen)
      modifies this
      ensures fields == Customize(old(fields), lib)
    {
      PrepareSteps(lib);
      CleanSteps(lib);
      CompleteSteps(lib);
    }
  }
}
