/** crossrefs.py: checking the `crossref` fields of a bibliography, expanding
    them into the entries that carry them, and writing the bibliography out.
    A bibliography maps entry keys to entries, and an entry maps field names
    to values; both are ordered dictionaries. */
module Crossrefs {
  import opened Text
  import opened Dicts

  type Entry = Dict<string>
  type Entries = Dict<Entry>

  // ---------------------------------------------------------------------------
  // the type tables (crossrefs.py:7-14)

  /** For each type expected to carry a `crossref`, the types its target may
      have. */
  const EntryTypesToReferenceTypes: map<string, seq<string>> :=
    map["inbook" := ["book", "mvbook"],
        "incollection" := ["collection", "mvcollection"],
        "inproceedings" := ["proceedings"]]

  /** `sorted` of the keys of the table above. */
  const CrossrefTypes: seq<string> := ["inbook", "incollection", "inproceedings"]

  /** Python's order on strings: by code point, a proper prefix first. */
  predicate StringLess(a: string, b: string)
  {
    if a == [] then b != []
    else if b == [] then false
    else a[0] < b[0] || (a[0] == b[0] && StringLess(a[1..], b[1..]))
  }

  /** Strings that agree up to position `i` and differ there are ordered by
      the characters at `i`. */
  lemma {:induction false} StringLessAt(a: string, b: string, i: nat)
    requires i < |a| && i < |b| && a[..i] == b[..i] && a[i] < b[i]
    ensures StringLess(a, b)
    decreases i
  {
    if i > 0 {
      assert a[0] == a[..i][0] == b[..i][0] == b[0];
      assert a[1..][..i - 1] == a[..i][1..] == b[..i][1..] == b[1..][..i - 1];
      StringLessAt(a[1..], b[1..], i - 1);
    }
  }

  lemma CrossrefTypesSorted()
    ensures forall t :: t in CrossrefTypes <==> t in EntryTypesToReferenceTypes
    ensures |CrossrefTypes| == |EntryTypesToReferenceTypes|
    ensures forall i, j :: 0 <= i < j < |CrossrefTypes| ==> StringLess(CrossrefTypes[i], CrossrefTypes[j])
  {
    StringLessAt("inbook", "incollection", 2);
    StringLessAt("incollection", "inproceedings", 2);
    StringLessAt("inbook", "inproceedings", 2);
  }

  // ---------------------------------------------------------------------------
  // make_list (crossrefs.py:17-39)

  /** One item as it is; two joined by the delimiter; more joined by commas
      with the delimiter before the last. An empty list fails in the source
      at `strings[-1]`. */
  function MakeList(strings: seq<string>, delimiter: string): (r: string)
    requires |strings| > 0
  {
    if |strings| == 1 then strings[0]
    else if |strings| == 2 then strings[0] + " " + delimiter + " " + strings[1]
    else Join(strings[..|strings| - 1], ", ") + ", " + delimiter + " " + strings[|strings| - 1]
  }

  /** Two or more items: all but the last joined by `, `, then a comma only
      when there are three or more, then the delimiter and the last item. */
  lemma MakeListShape(strings: seq<string>, delimiter: string)
    requires |strings| >= 2
    ensures var n := |strings| - 1;
      MakeList(strings, delimiter)
      == Join(strings[..n], ", ") + (if n >= 2 then "," else "") + " " + delimiter + " " + strings[n]
  {
    if |strings| == 2 {
      assert strings[..1] == [strings[0]];
    }
  }

  /** The result begins with the first item and ends with the last. */
  lemma MakeListEnds(strings: seq<string>, delimiter: string)
    requires |strings| > 0
    ensures StartsWith(MakeList(strings, delimiter), strings[0])
    ensures var r := MakeList(strings, delimiter); var l := strings[|strings| - 1];
      |l| <= |r| && r[|r| - |l|..] == l
  {
    var r := MakeList(strings, delimiter);
    var n := |strings| - 1;
    if n >= 2 {
      var p := strings[..n];
      assert p == [strings[0]] + p[1..];
      JoinCons(strings[0], p[1..], ", ");
      assert r == strings[0] + (", " + Join(p[1..], ", ") + ", " + delimiter + " " + strings[n]);
    }
  }

  lemma MakeListOne()
    ensures MakeList(["foo"], "or") == "foo"
  {
  }

  lemma MakeListTwo()
    ensures MakeList(["foo", "bar"], "or") == "foo or bar"
    ensures MakeList(["foo", "bar"], "and") == "foo and bar"
  {
  }

  lemma MakeListThree()
    ensures MakeList(["foo", "bar", "zip"], "or") == "foo, bar, or zip"
  {
    var s := ["foo", "bar", "zip"];
    assert s[..2] == ["foo", "bar"];
    assert Join(["foo", "bar"], ", ") == "foo, bar" by {
      assert ["foo", "bar"][1..] == ["bar"];
    }
  }

  /** The lists the messages print. */
  lemma ExpectedTypesText()
    ensures MakeList(CrossrefTypes, "or") == "inbook, incollection, or inproceedings"
  {
    assert CrossrefTypes[..2] == ["inbook", "incollection"];
    assert Join(["inbook", "incollection"], ", ") == "inbook, incollection" by {
      assert ["inbook", "incollection"][1..] == ["incollection"];
    }
    assert MakeList(CrossrefTypes, "or") == "inbook, incollection" + ", " + "or" + " " + "inproceedings";
  }

  lemma AllowedTypesText()
    ensures MakeList(EntryTypesToReferenceTypes["inbook"], "or") == "book or mvbook"
    ensures MakeList(EntryTypesToReferenceTypes["incollection"], "or") == "collection or mvcollection"
    ensures MakeList(EntryTypesToReferenceTypes["inproceedings"], "or") == "proceedings"
  {
  }

  // ---------------------------------------------------------------------------
  // the bibliography as the parser gives it

  /** Every entry the parser produces has an `id` and a `type`. */
  ghost predicate EntryOk(e: Entry)
  {
    Valid(e) && "id" in e.vals && "type" in e.vals
  }

  ghost predicate WellFormed(es: Entries)
  {
    Valid(es) && forall k {:trigger es.vals[k]} :: k in es.vals ==> EntryOk(es.vals[k])
  }

  // ---------------------------------------------------------------------------
  // validation (crossrefs.py:73-114)

  /** The reports of the check, with the data the messages print. */
  datatype Diagnostic =
    | NotFound(target: string, id: string)
    | WrongTargetType(target: string, id: string, targetType: string, allowed: seq<string>)
    | UnexpectedCrossref(id: string, entryType: string)

  /** The line the check prints for a report. */
  function Message(d: Diagnostic): (m: string)
    requires d.WrongTargetType? ==> |d.allowed| > 0
  {
    match d
    case NotFound(c, id) => c + " referenced by " + id + " was not found."
    case WrongTargetType(c, id, ty, allowed) =>
      "The type of " + c + " referenced by " + id + " is " + ty + ". It should probably be " + MakeList(allowed, "or") + "."
    case UnexpectedCrossref(id, ty) =>
      "The type of " + id + " is " + ty + ". That's not one of the types expected to have a crossref, which are: "
      + MakeList(CrossrefTypes, "or") + "."
  }

  lemma NotFoundMessage()
    ensures Message(NotFound("b1", "e1")) == "b1 referenced by e1 was not found."
  {
  }

  /** The reports about entry `k`: a missing target, or a target of a type
      the table does not allow; then a type not expected to carry a
      `crossref`. Entries without a `crossref` give none. */
  function EntryDiagnostics(es: Entries, k: string): (ds: seq<Diagnostic>)
    requires WellFormed(es) && k in es.vals
  {
    var e := es.vals[k].vals;
    if "crossref" !in e then []
    else
      var c := e["crossref"];
      var ty := e["type"];
      var first :=
        if c !in es.vals then [NotFound(c, e["id"])]
        else if ty in EntryTypesToReferenceTypes && es.vals[c].vals["type"] !in EntryTypesToReferenceTypes[ty] then
          [WrongTargetType(c, e["id"], es.vals[c].vals["type"], EntryTypesToReferenceTypes[ty])]
        else [];
      first + if ty !in CrossrefTypes then [UnexpectedCrossref(e["id"], ty)] else []
  }

  /** Each kind of report is issued exactly when the source's conditions for
      it hold. A missing target skips the check of the target's type. */
  lemma EntryDiagnosticsCases(es: Entries, k: string)
    requires WellFormed(es) && k in es.vals
    ensures var e := es.vals[k].vals; var ds := EntryDiagnostics(es, k);
      && ("crossref" !in e ==> ds == [])
      && ((exists d :: d in ds && d.NotFound?) <==> "crossref" in e && e["crossref"] !in es.vals)
      && ((exists d :: d in ds && d.WrongTargetType?) <==>
            "crossref" in e && e["crossref"] in es.vals && e["type"] in EntryTypesToReferenceTypes &&
            es.vals[e["crossref"]].vals["type"] !in EntryTypesToReferenceTypes[e["type"]])
      && ((exists d :: d in ds && d.UnexpectedCrossref?) <==> "crossref" in e && e["type"] !in CrossrefTypes)
      && (forall d :: d in ds && d.NotFound? ==> d == NotFound(e["crossref"], e["id"]))
  {
    var e := es.vals[k].vals;
    var ds := EntryDiagnostics(es, k);
    if "crossref" in e {
      var ty := e["type"];
      var tail: seq<Diagnostic> := if ty !in CrossrefTypes then [UnexpectedCrossref(e["id"], ty)] else [];
      assert forall d :: d in tail ==> d.UnexpectedCrossref?;
      if e["crossref"] !in es.vals {
        assert ds[0].NotFound?;
      } else if ty in EntryTypesToReferenceTypes && es.vals[e["crossref"]].vals["type"] !in EntryTypesToReferenceTypes[ty] {
        assert ds[0].WrongTargetType?;
      }
      if ty !in CrossrefTypes {
        assert ds[|ds| - 1].UnexpectedCrossref?;
      }
    }
  }

  /** Every report has a message: a wrong-type report lists the allowed
      types, and there is at least one. */
  lemma EntryDiagnosticsPrintable(es: Entries, k: string)
    requires WellFormed(es) && k in es.vals
    ensures forall d :: d in EntryDiagnostics(es, k) && d.WrongTargetType? ==>
      d.allowed == EntryTypesToReferenceTypes[es.vals[k].vals["type"]] && |d.allowed| > 0
  {
  }

  /** The reports about the `j`-th entry. */
  function Reports(es: Entries): (f: nat -> seq<Diagnostic>)
    requires WellFormed(es)
  {
    (j: nat) => if j < |es.keys| then EntryDiagnostics(es, es.keys[j]) else []
  }

  /** The reports for the first `n` entries, in their order. */
  function Diagnostics(es: Entries, n: nat): (ds: seq<Diagnostic>)
    requires WellFormed(es) && n <= |es.keys|
  {
    Collect(Reports(es), n)
  }

  /** Every report about one of the entries is in the output ... */
  lemma DiagnosticsHas(es: Entries, n: nat, i: nat, d: Diagnostic)
    requires WellFormed(es) && i < n <= |es.keys| && d in EntryDiagnostics(es, es.keys[i])
    ensures d in Diagnostics(es, n)
  {
    CollectHas(Reports(es), n, i, d);
  }

  /** ... and every report in the output is about one of the entries. */
  lemma DiagnosticsFrom(es: Entries, n: nat, d: Diagnostic) returns (i: nat)
    requires WellFormed(es) && n <= |es.keys| && d in Diagnostics(es, n)
    ensures i < n && d in EntryDiagnostics(es, es.keys[i])
  {
    i := CollectFrom(Reports(es), n, d);
  }

  /** The reports about one entry, in the order the source prints them. */
  method EntryReports(es: Entries, entry: string) returns (ds: seq<Diagnostic>)
    requires WellFormed(es) && entry in es.vals
    ensures ds == EntryDiagnostics(es, entry)
  {
    ds := [];
    var e := es.vals[entry].vals;
    if "crossref" in e {
      var entryCrossref := e["crossref"];
      var entryId := e["id"];
      var entryType := e["type"];
      if entryCrossref !in es.vals {
        ds := ds + [NotFound(entryCrossref, entryId)];
      } else if entryType in EntryTypesToReferenceTypes {
        var allowedTypes := EntryTypesToReferenceTypes[entryType];
        var entryCrossrefType := es.vals[entryCrossref].vals["type"];
        if entryCrossrefType !in allowedTypes {
          ds := ds + [WrongTargetType(entryCrossref, entryId, entryCrossrefType, allowedTypes)];
        }
      }
      if entryType !in CrossrefTypes {
        ds := ds + [UnexpectedCrossref(entryId, entryType)];
      }
    }
  }

  /** The check walks the entries in order and collects the reports; it
      changes no entry. */
  method Validate(es: Entries) returns (ds: seq<Diagnostic>)
    requires WellFormed(es)
    ensures ds == Diagnostics(es, |es.keys|)
  {
    ds := [];
    for j := 0 to |es.keys|
      invariant ds == Diagnostics(es, j)
    {
      var reports := EntryReports(es, es.keys[j]);
      ds := ds + reports;
    }
  }

  // ---------------------------------------------------------------------------
  // expansion: copying the target's fields (crossrefs.py:117-140)

  /** The target fields that are never copied: membership in the `leave`
      list. */
  predicate InLeave(f: string)
  {
    f == "id" || f == "type" || f == "read" || f == "bdsk-file-1" || f == "doi" ||
    f == "date-added" || f == "date-modified"
  }

  /** The referrer's field that a target field is copied into. */
  function Destination(f: string): string
  {
    if f == "title" then "booktitle"
    else if f == "subtitle" then "booksubtitle"
    else f
  }

  /** Copying target field `f` writes the referrer's field `k`. */
  predicate Writes(f: string, k: string)
  {
    !InLeave(f) && Destination(f) == k
  }

  /** One pass of the inner loop: `title` goes to `booktitle`, `subtitle` to
      `booksubtitle`, the fields of the `leave` list are skipped and any other field
      overwrites the referrer's. */
  function CopyField(e: Entry, t: Entry, f: string): (r: Entry)
    requires f in t.vals
    ensures r.vals == if InLeave(f) then e.vals else e.vals[Destination(f) := t.vals[f]]
    ensures |e.keys| <= |r.keys| && r.keys[..|e.keys|] == e.keys
  {
    if f == "title" then Set(e, "booktitle", t.vals["title"])
    else if f == "subtitle" then Set(e, "booksubtitle", t.vals["subtitle"])
    else if InLeave(f) then e
    else Set(e, f, t.vals[f])
  }

  /** The referrer after copying the target's fields `fs` in order. */
  function CopyFields(e: Entry, t: Entry, fs: seq<string>): (r: Entry)
    requires forall f :: f in fs ==> f in t.vals
    ensures e.vals.Keys <= r.vals.Keys
    ensures |e.keys| <= |r.keys| && r.keys[..|e.keys|] == e.keys
  {
    if fs == [] then e
    else
      var c := CopyFields(e, t, fs[..|fs| - 1]);
      var r := CopyField(c, t, fs[|fs| - 1]);
      assert r.keys[..|c.keys|][..|e.keys|] == r.keys[..|e.keys|];
      r
  }

  /** Copying one more of the target's fields, in the target's order. */
  lemma CopyFieldsNext(e: Entry, t: Entry, j: nat)
    requires Listed(t) && j < |t.keys|
    ensures CopyFields(e, t, t.keys[..j + 1]) == CopyField(CopyFields(e, t, t.keys[..j]), t, t.keys[j])
  {
    assert t.keys[..j + 1][..j] == t.keys[..j];
  }

  /** A field no copied field writes keeps its value, or stays absent. */
  lemma {:induction false} CopyFieldsUntouched(e: Entry, t: Entry, fs: seq<string>, k: string)
    requires forall f :: f in fs ==> f in t.vals
    requires forall i :: 0 <= i < |fs| ==> !Writes(fs[i], k)
    ensures k in CopyFields(e, t, fs).vals <==> k in e.vals
    ensures k in e.vals ==> CopyFields(e, t, fs).vals[k] == e.vals[k]
    decreases |fs|
  {
    if fs != [] {
      var n := |fs| - 1;
      CopyFieldsUntouched(e, t, fs[..n], k);
      CopyFieldOther(CopyFields(e, t, fs[..n]), t, fs[n], k);
    }
  }

  lemma CopyFieldOther(c: Entry, t: Entry, f: string, k: string)
    requires f in t.vals && !Writes(f, k)
    ensures k in CopyField(c, t, f).vals <==> k in c.vals
    ensures k in c.vals ==> CopyField(c, t, f).vals[k] == c.vals[k]
  {
  }

  lemma CopyFieldSelf(c: Entry, t: Entry, f: string, k: string)
    requires f in t.vals && Writes(f, k)
    ensures k in CopyField(c, t, f).vals && CopyField(c, t, f).vals[k] == t.vals[f]
  {
  }

  /** A field holds the value of the last copied field that writes it. */
  lemma {:induction false} CopyFieldsLastWriter(e: Entry, t: Entry, fs: seq<string>, k: string, i: nat)
    requires forall f :: f in fs ==> f in t.vals
    requires i < |fs| && Writes(fs[i], k)
    requires forall j :: i < j < |fs| ==> !Writes(fs[j], k)
    ensures k in CopyFields(e, t, fs).vals && CopyFields(e, t, fs).vals[k] == t.vals[fs[i]]
    decreases |fs|
  {
    var n := |fs| - 1;
    var c := CopyFields(e, t, fs[..n]);
    if i < n {
      assert fs[..n][i] == fs[i];
      CopyFieldsLastWriter(e, t, fs[..n], k, i);
      CopyFieldOther(c, t, fs[n], k);
    } else {
      CopyFieldSelf(c, t, fs[n], k);
    }
  }

  /** The referrer once expanded: the target's fields copied in the target's
      order, then its own `crossref` deleted. */
  function ExpandedEntry(e: Entry, t: Entry): (r: Entry)
    requires Listed(t) && "crossref" in e.vals
    ensures "crossref" !in r.vals
    ensures r.vals == CopyFields(e, t, t.keys).vals - {"crossref"}
  {
    Delete(CopyFields(e, t, t.keys), "crossref")
  }

  /** Each listed key has a value; validity says more. */
  predicate Listed(t: Entry)
  {
    forall f :: f in t.keys ==> f in t.vals
  }

  /** Copying keeps the referrer a valid dictionary. */
  lemma {:induction false} CopyFieldsValid(e: Entry, t: Entry, fs: seq<string>)
    requires Valid(e) && forall f :: f in fs ==> f in t.vals
    ensures Valid(CopyFields(e, t, fs))
    decreases |fs|
  {
    if fs != [] {
      var n := |fs| - 1;
      var c := CopyFields(e, t, fs[..n]);
      CopyFieldsValid(e, t, fs[..n]);
      var f := fs[n];
      if f == "title" {
        SetValid(c, "booktitle", t.vals["title"]);
      } else if f == "subtitle" {
        SetValid(c, "booksubtitle", t.vals["subtitle"]);
      } else if !InLeave(f) {
        SetValid(c, f, t.vals[f]);
      }
    }
  }

  /** The expanded referrer is still an entry as the parser gives them. */
  lemma ExpandedEntryOk(e: Entry, t: Entry)
    requires EntryOk(e) && Valid(t) && "crossref" in e.vals
    ensures EntryOk(ExpandedEntry(e, t))
  {
    var c := CopyFields(e, t, t.keys);
    CopyFieldsValid(e, t, t.keys);
    DeleteValid(c, "crossref");
    LeaveNotWritten("id");
    LeaveNotWritten("type");
    CopyFieldsUntouched(e, t, t.keys, "id");
    CopyFieldsUntouched(e, t, t.keys, "type");
  }

  /** A copied field writes itself, except that `title` and `subtitle` write
      `booktitle` and `booksubtitle`. */
  lemma WritesCases(g: string, k: string)
    requires Writes(g, k)
    ensures g == k || (g == "title" && k == "booktitle") || (g == "subtitle" && k == "booksubtitle")
  {
  }

  /** Away from `crossref`, the expanded referrer is the referrer after the
      copies. */
  lemma ExpandedEntryAt(e: Entry, t: Entry, k: string)
    requires Listed(t) && "crossref" in e.vals && k != "crossref"
    ensures k in ExpandedEntry(e, t).vals <==> k in CopyFields(e, t, t.keys).vals
    ensures k in ExpandedEntry(e, t).vals ==> ExpandedEntry(e, t).vals[k] == CopyFields(e, t, t.keys).vals[k]
  {
  }

  /** The fields that write `booktitle` are `title` and `booktitle`, and
      likewise for `booksubtitle`; a field outside `Renamed` is written by
      itself alone. */
  lemma WritersOf(k: string)
    ensures k == "booktitle" ==> forall g :: Writes(g, k) ==> g == "title" || g == k
    ensures k == "booksubtitle" ==> forall g :: Writes(g, k) ==> g == "subtitle" || g == k
    ensures k !in Renamed ==> forall g :: Writes(g, k) ==> g == k
  {
    forall g | Writes(g, k) {
      WritesCases(g, k);
    }
  }

  /** No copied field writes a field of the `leave` list. */
  lemma LeaveNotWritten(k: string)
    requires InLeave(k)
    ensures forall g :: !Writes(g, k)
  {
    forall g | Writes(g, k) ensures false {
      WritesCases(g, k);
    }
  }

  /** The expanded referrer keeps its own fields of the `leave` list, `id` and
      `type` among them, and has none it did not have. */
  lemma ExpandedKeepsLeave(e: Entry, t: Entry, k: string)
    requires Valid(t) && "crossref" in e.vals && InLeave(k)
    ensures var r := ExpandedEntry(e, t);
      (k in r.vals <==> k in e.vals) && (k in e.vals ==> r.vals[k] == e.vals[k])
  {
    LeaveNotWritten(k);
    CopyFieldsUntouched(e, t, t.keys, k);
    ExpandedEntryAt(e, t, k);
  }

  /** The target's `title` becomes the referrer's `booktitle` unless the
      target has a `booktitle` as well; likewise `subtitle` becomes
      `booksubtitle`. */
  lemma ExpandedRenamedField(e: Entry, t: Entry, f: string, k: string)
    requires Valid(t) && "crossref" in e.vals
    requires (f, k) == ("title", "booktitle") || (f, k) == ("subtitle", "booksubtitle")
    requires f in t.vals && k !in t.vals
    ensures var r := ExpandedEntry(e, t); k in r.vals && r.vals[k] == t.vals[f]
  {
    WritersOf(k);
    OnlyWriter(e, t, f, k);
    ExpandedEntryAt(e, t, k);
  }

  /** Any other field of the target overwrites the referrer's. */
  lemma ExpandedCopies(e: Entry, t: Entry, f: string)
    requires Valid(t) && "crossref" in e.vals
    requires f in t.vals && !InLeave(f) && f !in Renamed
    ensures var r := ExpandedEntry(e, t); f in r.vals && r.vals[f] == t.vals[f]
  {
    WritersOf(f);
    OnlyWriter(e, t, f, f);
    ExpandedEntryAt(e, t, f);
  }

  /** A field that no field of the target writes keeps its value. */
  lemma ExpandedUntouchedField(e: Entry, t: Entry, k: string)
    requires Valid(t) && "crossref" in e.vals && k != "crossref"
    requires forall g :: g in t.vals ==> !Writes(g, k)
    ensures var r := ExpandedEntry(e, t);
      (k in r.vals <==> k in e.vals) && (k in e.vals ==> r.vals[k] == e.vals[k])
  {
    CopyFieldsUntouched(e, t, t.keys, k);
    ExpandedEntryAt(e, t, k);
  }

  /** The fields whose copies may be overwritten or deleted: the renamed
      ones, their destinations, and `crossref`. */
  const Renamed: set<string> := {"title", "subtitle", "booktitle", "booksubtitle", "crossref"}

  /** When `f` is the only field of the target that writes `k`, `k` ends up
      holding the target's `f`. */
  lemma OnlyWriter(e: Entry, t: Entry, f: string, k: string)
    requires Valid(t) && f in t.vals && Writes(f, k)
    requires forall g :: Writes(g, k) ==> g == f || g !in t.vals
    ensures k in CopyFields(e, t, t.keys).vals && CopyFields(e, t, t.keys).vals[k] == t.vals[f]
  {
    var i :| 0 <= i < |t.keys| && t.keys[i] == f;
    CopyFieldsLastWriter(e, t, t.keys, k, i);
  }

  // ---------------------------------------------------------------------------
  // expansion: the loop over the entries (crossrefs.py:115-144)

  /** What the loop needs: every `crossref` names an entry (otherwise line
      131 raises `KeyError`), and none names its own entry (otherwise the
      inner loop iterates the dictionary it writes to). */
  ghost predicate Ready(es: Entries)
  {
    WellFormed(es) && forall k {:trigger es.vals[k]} :: k in es.vals ==> TargetOk(es, k)
  }

  ghost predicate TargetOk(es: Entries, k: string)
    requires k in es.vals
  {
    "crossref" in es.vals[k].vals ==>
      es.vals[k].vals["crossref"] in es.vals && es.vals[k].vals["crossref"] != k
  }

  /** Entry `k` has a `crossref` whose target is there to copy from. */
  predicate Expandable(es: Entries, k: string)
  {
    k in es.vals && "crossref" in es.vals[k].vals && es.vals[k].vals["crossref"] in es.vals &&
    Listed(es.vals[es.vals[k].vals["crossref"]])
  }

  /** One pass of the outer loop: an entry with a `crossref` is expanded
      against the current state of its target. On a ready bibliography
      (see `ReadyExpandable`) that is every entry with a `crossref`; the
      others stay as they are. */
  function ExpandStep(es: Entries, k: string): (r: Entries)
    ensures r.keys == es.keys && r.vals.Keys == es.vals.Keys
    ensures forall j :: j in es.vals && j != k ==> r.vals[j] == es.vals[j]
  {
    if Expandable(es, k) then
      var e := es.vals[k];
      Dict(es.keys, es.vals[k := ExpandedEntry(e, es.vals[e.vals["crossref"]])])
    else es
  }

  /** Putting an entry without `crossref` in place of another keeps the
      bibliography ready. */
  lemma ReplaceReady(es: Entries, k: string, x: Entry)
    requires Ready(es) && k in es.vals
    requires EntryOk(x) && "crossref" !in x.vals
    ensures Ready(Dict(es.keys, es.vals[k := x]))
  {
    var r := Dict(es.keys, es.vals[k := x]);
    forall j | j in r.vals ensures EntryOk(r.vals[j]) && TargetOk(r, j) {
      if j != k {
        assert r.vals[j] == es.vals[j];
        assert TargetOk(es, j);
      }
    }
  }

  /** On a ready bibliography a pass keeps it ready. */
  lemma ExpandStepReady(es: Entries, k: string)
    requires Ready(es) && k in es.vals
    ensures Ready(ExpandStep(es, k))
  {
    var e := es.vals[k];
    if "crossref" in e.vals {
      assert EntryOk(e) && TargetOk(es, k);
      var t := es.vals[e.vals["crossref"]];
      assert EntryOk(t);
      ExpandedEntryOk(e, t);
      ReplaceReady(es, k, ExpandedEntry(e, t));
    }
  }

  /** On a ready bibliography a pass expands entry `k` exactly when it has a
      `crossref`, and clears that field. */
  lemma ExpandStepAt(es: Entries, k: string)
    requires k in es.vals && "crossref" in es.vals[k].vals && Expandable(es, k)
    ensures var e := es.vals[k]; var r := ExpandStep(es, k);
      "crossref" !in r.vals[k].vals && r.vals[k] == ExpandedEntry(e, es.vals[e.vals["crossref"]])
  {
  }

  /** A pass over an entry without `crossref` leaves it alone. */
  lemma ExpandStepQuiet(es: Entries, k: string)
    requires k in es.vals && "crossref" !in es.vals[k].vals
    ensures ExpandStep(es, k).vals[k] == es.vals[k]
  {
  }

  /** A ready bibliography can expand every entry that has a `crossref`. */
  lemma ReadyExpandable(es: Entries, k: string)
    requires Ready(es) && k in es.vals && "crossref" in es.vals[k].vals
    ensures Expandable(es, k)
  {
    assert TargetOk(es, k);
    assert EntryOk(es.vals[es.vals[k].vals["crossref"]]);
  }

  /** On a ready bibliography a pass leaves entry `k` without `crossref`. */
  lemma ExpandStepClears(es: Entries, k: string)
    requires Ready(es) && k in es.vals
    ensures "crossref" !in ExpandStep(es, k).vals[k].vals
  {
    if "crossref" in es.vals[k].vals {
      ReadyExpandable(es, k);
      ExpandStepAt(es, k);
    } else {
      ExpandStepQuiet(es, k);
    }
  }

  /** The bibliography after the outer loop has visited its first `n`
      entries. */
  function ExpandFirst(es: Entries, n: nat): (r: Entries)
    requires n <= |es.keys|
    ensures r.keys == es.keys && r.vals.Keys == es.vals.Keys
  {
    if n == 0 then es
    else ExpandStep(ExpandFirst(es, n - 1), es.keys[n - 1])
  }

  lemma {:induction false} ExpandFirstReady(es: Entries, n: nat)
    requires Ready(es) && n <= |es.keys|
    ensures Ready(ExpandFirst(es, n))
  {
    if n > 0 {
      var m := n - 1;
      ExpandFirstReady(es, m);
      ExpandFirstReadyStep(es, m);
    }
  }

  lemma ExpandFirstReadyStep(es: Entries, m: nat)
    requires m < |es.keys| && Ready(ExpandFirst(es, m))
    ensures Ready(ExpandFirst(es, m + 1))
  {
    ExpandStepReady(ExpandFirst(es, m), es.keys[m]);
  }

  /** One more pass of the loop. */
  lemma ExpandFirstNextState(es: Entries, m: nat)
    requires m < |es.keys|
    ensures ExpandFirst(es, m + 1) == ExpandStep(ExpandFirst(es, m), es.keys[m])
    ensures ConsumedFirst(es, m + 1) == ConsumedFirst(es, m) + Named(es, es.keys[m])
  {
  }

  /** An entry the loop has not visited yet is as it was. */
  lemma {:induction false} ExpandFirstFrame(es: Entries, n: nat, k: string)
    requires n <= |es.keys| && k in es.vals
    requires forall j :: 0 <= j < n ==> es.keys[j] != k
    ensures ExpandFirst(es, n).vals[k] == es.vals[k]
  {
    if n > 0 {
      var m := n - 1;
      ExpandFirstFrame(es, m, k);
    }
  }

  /** An entry without `crossref` never changes. */
  lemma {:induction false} ExpandFirstQuiet(es: Entries, n: nat, k: string)
    requires n <= |es.keys| && k in es.vals && "crossref" !in es.vals[k].vals
    ensures ExpandFirst(es, n).vals[k] == es.vals[k]
  {
    if n > 0 {
      var m := n - 1;
      ExpandFirstQuiet(es, m, k);
      if es.keys[m] == k {
        ExpandStepQuiet(ExpandFirst(es, m), k);
      }
    }
  }

  /** Once the loop has visited an entry, later passes leave it alone. */
  lemma {:induction false} ExpandFirstAt(es: Entries, n: nat, i: nat)
    requires i < n <= |es.keys| && es.keys[i] in es.vals
    requires forall j :: i < j < n ==> es.keys[j] != es.keys[i]
    ensures ExpandFirst(es, n).vals[es.keys[i]] == ExpandFirst(es, i + 1).vals[es.keys[i]]
  {
    if i + 1 < n {
      var m := n - 1;
      ExpandFirstAt(es, m, i);
    }
  }

  /** On a ready bibliography every state of the loop can expand an entry
      that still has a `crossref`. */
  lemma ExpandFirstExpandable(es: Entries, n: nat, k: string)
    requires Ready(es) && n <= |es.keys| && k in es.vals
    requires "crossref" in ExpandFirst(es, n).vals[k].vals
    ensures Expandable(ExpandFirst(es, n), k)
  {
    ExpandFirstReady(es, n);
    ReadyExpandable(ExpandFirst(es, n), k);
  }

  /** What the loop finds when it reaches the `i`-th entry: the entry as it
      was, ready to expand if it has a `crossref`. */
  lemma ExpandFirstNext(es: Entries, i: nat)
    requires Ready(es) && i < |es.keys|
    ensures var x := ExpandFirst(es, i); var k := es.keys[i];
      && k in x.vals && x.vals[k] == es.vals[k]
      && ("crossref" in x.vals[k].vals ==> Expandable(x, k))
  {
    var k := es.keys[i];
    ExpandFirstFrame(es, i, k);
    if "crossref" in es.vals[k].vals {
      ExpandFirstExpandable(es, i, k);
    }
  }

  /** A visited entry has no `crossref` any more. */
  lemma ExpandFirstClears(es: Entries, n: nat, i: nat)
    requires Ready(es) && i < n <= |es.keys|
    ensures "crossref" !in ExpandFirst(es, n).vals[es.keys[i]].vals
  {
    var k := es.keys[i];
    ExpandFirstAt(es, n, i);
    var before := ExpandFirst(es, i);
    if "crossref" in before.vals[k].vals {
      ExpandFirstExpandable(es, i, k);
      ExpandStepAt(before, k);
    } else {
      ExpandStepQuiet(before, k);
    }
  }

  /** The `i`-th entry ends up expanded against its target as the loop found
      it when it got there. */
  lemma ExpandFirstReferrer(es: Entries, n: nat, i: nat)
    requires Ready(es) && i < n <= |es.keys| && "crossref" in es.vals[es.keys[i]].vals
    ensures var k := es.keys[i]; var c := es.vals[k].vals["crossref"]; var before := ExpandFirst(es, i);
      && c in before.vals && Listed(before.vals[c])
      && ExpandFirst(es, n).vals[k] == ExpandedEntry(es.vals[k], before.vals[c])
  {
    var k := es.keys[i];
    var before := ExpandFirst(es, i);
    ExpandFirstFrame(es, i, k);
    ExpandFirstExpandable(es, i, k);
    ExpandStepAt(before, k);
    ExpandFirstAt(es, n, i);
  }

  /** The target as the loop finds it is the original one unless the loop
      visited it earlier and it had a `crossref` itself. */
  lemma ExpandFirstTarget(es: Entries, n: nat, c: string)
    requires n <= |es.keys| && c in es.vals && (c !in es.keys[..n] || "crossref" !in es.vals[c].vals)
    ensures ExpandFirst(es, n).vals[c] == es.vals[c]
  {
    if c !in es.keys[..n] {
      forall j | 0 <= j < n ensures es.keys[j] != c {
        assert es.keys[..n][j] == es.keys[j];
      }
      ExpandFirstFrame(es, n, c);
    } else {
      ExpandFirstQuiet(es, n, c);
    }
  }

  /** The key entry `k`'s `crossref` names, if it has one. */
  function Named(es: Entries, k: string): (r: set<string>)
  {
    if k in es.vals && "crossref" in es.vals[k].vals then {es.vals[k].vals["crossref"]} else {}
  }

  /** The set `crossrefs` once the loop has visited the first `n` entries:
      their targets. */
  function ConsumedFirst(es: Entries, n: nat): (gone: set<string>)
    requires n <= |es.keys|
  {
    if n == 0 then {}
    else
      var m := n - 1;
      ConsumedFirst(es, m) + Named(es, es.keys[m])
  }

  /** Every target is an entry of the bibliography. */
  lemma {:induction false} ConsumedFirstKeys(es: Entries, n: nat)
    requires Ready(es) && n <= |es.keys|
    ensures ConsumedFirst(es, n) <= es.vals.Keys
  {
    if n > 0 {
      var m := n - 1;
      ConsumedFirstKeys(es, m);
      assert TargetOk(es, es.keys[m]);
    }
  }

  /** Every key in the set is the target of one of those entries. */
  lemma {:induction false} ConsumedFrom(es: Entries, n: nat, c: string) returns (i: nat)
    requires n <= |es.keys| && c in ConsumedFirst(es, n)
    ensures i < n && es.keys[i] in es.vals && "crossref" in es.vals[es.keys[i]].vals && es.vals[es.keys[i]].vals["crossref"] == c
  {
    var m := n - 1;
    var k := es.keys[m];
    if k in es.vals && "crossref" in es.vals[k].vals && es.vals[k].vals["crossref"] == c {
      i := m;
    } else {
      i := ConsumedFrom(es, m, c);
    }
  }

  /** The targets of all entries. */
  function Consumed(es: Entries): (gone: set<string>)
    requires Ready(es)
    ensures gone <= es.vals.Keys
  {
    ConsumedFirstKeys(es, |es.keys|);
    ConsumedFirst(es, |es.keys|)
  }

  /** A key is consumed exactly when some entry names it. */
  lemma ConsumedIff(es: Entries, c: string)
    requires Ready(es)
    ensures c in Consumed(es) <==> exists k :: k in es.vals && "crossref" in es.vals[k].vals && es.vals[k].vals["crossref"] == c
  {
    if c in Consumed(es) {
      var i := ConsumedFrom(es, |es.keys|, c);
      assert es.keys[i] in es.vals;
    }
    if exists k :: k in es.vals && "crossref" in es.vals[k].vals && es.vals[k].vals["crossref"] == c {
      var k :| k in es.vals && "crossref" in es.vals[k].vals && es.vals[k].vals["crossref"] == c;
      var i :| 0 <= i < |es.keys| && es.keys[i] == k;
      ConsumedHas(es, |es.keys|, i);
    }
  }

  lemma {:induction false} ConsumedHas(es: Entries, n: nat, i: nat)
    requires i < n <= |es.keys| && es.keys[i] in es.vals && "crossref" in es.vals[es.keys[i]].vals
    ensures es.vals[es.keys[i]].vals["crossref"] in ConsumedFirst(es, n)
  {
    var m := n - 1;
    if i < m {
      ConsumedHas(es, m, i);
    }
  }

  /** Deleting the consumed entries, which keeps the order of the others. */
  function Prune(es: Entries, gone: set<string>): (r: Entries)
    requires gone <= es.vals.Keys
    ensures forall k :: k in r.vals <==> k in es.vals && k !in gone
    ensures forall k :: k in r.vals ==> r.vals[k] == es.vals[k]
  {
    Dict(Filter(es.keys, gone), es.vals - gone)
  }

  lemma PruneValid(es: Entries, gone: set<string>)
    requires WellFormed(es) && gone <= es.vals.Keys
    ensures WellFormed(Prune(es, gone))
  {
    FilterDistinct(es.keys, gone);
  }

  /** Deleting one more key is pruning by one more key. */
  lemma PruneMore(es: Entries, gone: set<string>, k: string)
    requires gone <= es.vals.Keys && k in es.vals && k !in gone
    ensures Delete(Prune(es, gone), k) == Prune(es, gone + {k})
  {
    FilterFilter(es.keys, gone, {k});
    assert (es.vals - gone) - {k} == es.vals - (gone + {k});
  }

  /** Pruning nothing changes nothing. */
  lemma PruneNone(es: Entries)
    ensures Prune(es, {}) == es
  {
    FilterNone(es.keys);
    assert es.vals - {} == es.vals;
  }

  /** The bibliography after `--expand`. */
  function Expanded(es: Entries): (r: Entries)
    requires Ready(es)
  {
    Prune(ExpandFirst(es, |es.keys|), Consumed(es))
  }

  /** After expansion the targets are gone, every other entry is still there
      in its place, no entry has a `crossref`, and the result is still a
      bibliography the parser could have produced. */
  lemma ExpansionResult(es: Entries)
    requires Ready(es)
    ensures var r := Expanded(es);
      && (forall k :: k in r.vals <==> k in es.vals && k !in Consumed(es))
      && r.keys == Filter(es.keys, Consumed(es))
      && (forall k :: k in r.vals ==> "crossref" !in r.vals[k].vals)
      && WellFormed(r)
  {
    var x := ExpandFirst(es, |es.keys|);
    forall k | k in es.vals ensures "crossref" !in x.vals[k].vals {
      var i :| 0 <= i < |es.keys| && es.keys[i] == k;
      ExpandFirstClears(es, |es.keys|, i);
    }
    ExpandFirstReady(es, |es.keys|);
    PruneValid(x, Consumed(es));
  }

  /** Without any `crossref` expansion changes nothing. */
  lemma ExpansionNothing(es: Entries)
    requires Ready(es) && forall k :: k in es.vals ==> "crossref" !in es.vals[k].vals
    ensures Consumed(es) == {} && Expanded(es) == es
  {
    var x := ExpandFirst(es, |es.keys|);
    forall k | k in es.vals ensures x.vals[k] == es.vals[k] {
      ExpandFirstQuiet(es, |es.keys|, k);
    }
    assert x.vals == es.vals;
    if c :| c in Consumed(es) {
      var i := ConsumedFrom(es, |es.keys|, c);
    }
    PruneNone(es);
  }

  /** An entry without `crossref` that no entry names is kept as it was. */
  lemma ExpansionUntouched(es: Entries, k: string)
    requires Ready(es) && k in es.vals && "crossref" !in es.vals[k].vals
    requires forall j :: j in es.vals && "crossref" in es.vals[j].vals ==> es.vals[j].vals["crossref"] != k
    ensures k in Expanded(es).vals && Expanded(es).vals[k] == es.vals[k]
  {
    ConsumedIff(es, k);
    ExpandFirstQuiet(es, |es.keys|, k);
  }

  /** A referrer that is not itself a target ends up expanded against its
      target as the loop found it: the original target unless the loop
      visited the target earlier and it had a `crossref` itself. */
  lemma ExpansionReferrer(es: Entries, i: nat)
    requires Ready(es) && i < |es.keys| && "crossref" in es.vals[es.keys[i]].vals
    requires es.keys[i] !in Consumed(es)
    ensures var k := es.keys[i]; var c := es.vals[k].vals["crossref"]; var before := ExpandFirst(es, i);
      && k in Expanded(es).vals && c in before.vals && Listed(before.vals[c])
      && Expanded(es).vals[k] == ExpandedEntry(es.vals[k], before.vals[c])
      && (c !in es.keys[..i] || "crossref" !in es.vals[c].vals ==> before.vals[c] == es.vals[c])
  {
    var k := es.keys[i];
    var c := es.vals[k].vals["crossref"];
    ExpandFirstReferrer(es, |es.keys|, i);
    if c !in es.keys[..i] || "crossref" !in es.vals[c].vals {
      ExpandFirstTarget(es, i, c);
    }
  }
}
