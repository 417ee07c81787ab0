/** `bib_to_string` of crossrefs.py:42-60: the text the script writes back
    after `--expand`. Each entry becomes a header line and one line per
    field, with the comma after the last field replaced by the closing
    brace. */
module Render {
  import opened Dicts
  import opened Crossrefs

  /** The fields written as lines: all but `id` and `type`, which go into the
      header. */
  predicate Written(f: string)
  {
    f != "id" && f != "type"
  }

  /** `@type{id,` on a line of its own, after an empty line. */
  function Header(e: Entry): (s: string)
    requires "id" in e.vals && "type" in e.vals
  {
    "\n@" + e.vals["type"] + "{" + e.vals["id"] + ",\n"
  }

  /** A tab, the name, ` = {`, the value, `},` and a newline. */
  function FieldLine(f: string, v: string): (s: string)
  {
    "\t" + f + " = {" + v + "},\n"
  }

  /** The lines of the first `n` fields of `e`, in order. */
  function FieldLines(e: Entry, n: nat): (s: string)
    requires Listed(e) && n <= |e.keys|
  {
    if n == 0 then ""
    else
      var m := n - 1;
      var f := e.keys[m];
      FieldLines(e, m) + if Written(f) then FieldLine(f, e.vals[f]) else ""
  }

  /** An entry's text: its header and field lines with the final `,\n`
      replaced by `}\n` (`string[:-2] + '}\n'`). */
  function EntryText(e: Entry): (s: string)
    requires Listed(e) && "id" in e.vals && "type" in e.vals
  {
    var s := Header(e) + FieldLines(e, |e.keys|);
    s[..|s| - 2] + "}\n"
  }

  /** The text of the first `n` entries, in the bibliography's order. */
  function RenderFirst(es: Entries, n: nat): (s: string)
    requires WellFormed(es) && n <= |es.keys|
  {
    if n == 0 then ""
    else
      var m := n - 1;
      EntryFirstOk(es, m);
      RenderFirst(es, m) + EntryText(es.vals[es.keys[m]])
  }

  /** The whole bibliography. */
  function Rendered(es: Entries): (s: string)
    requires WellFormed(es)
  {
    RenderFirst(es, |es.keys|)
  }

  lemma EntryFirstOk(es: Entries, m: nat)
    requires WellFormed(es) && m < |es.keys|
    ensures es.keys[m] in es.vals
    ensures var e := es.vals[es.keys[m]]; Listed(e) && "id" in e.vals && "type" in e.vals
  {
    assert es.keys[m] in es.keys;
  }

  // ---------------------------------------------------------------------------
  // the closed form

  /** The text of field `f` in the finished entry: `,\n`, a tab, the name,
      ` = {`, the value and `}`; nothing for `id` and `type`. */
  function Item(e: Entry, f: string): (s: string)
    requires f in e.vals
  {
    if Written(f) then ",\n\t" + f + " = {" + e.vals[f] + "}" else ""
  }

  /** The items of the first `n` fields: the field lines without the comma
      after the last one. */
  function Items(e: Entry, n: nat): (s: string)
    requires Listed(e) && n <= |e.keys|
  {
    if n == 0 then "" else var m := n - 1; Items(e, m) + Item(e, e.keys[m])
  }

  /** A string that a suffix `,\n` can be moved across. */
  lemma ShiftComma(a: string, b: string, t: string, item: string)
    requires ",\n" + a == b + ",\n" && ",\n" + t == item + ",\n"
    ensures ",\n" + (a + t) == (b + item) + ",\n"
  {
    calc {
      ",\n" + (a + t);
      (",\n" + a) + t;
      (b + ",\n") + t;
      b + (",\n" + t);
      b + (item + ",\n");
      (b + item) + ",\n";
    }
  }

  lemma FieldLineItem(e: Entry, f: string)
    requires f in e.vals
    ensures ",\n" + (if Written(f) then FieldLine(f, e.vals[f]) else "") == Item(e, f) + ",\n"
  {
  }

  lemma FieldLinesItemsStep(e: Entry, m: nat)
    requires Listed(e) && m < |e.keys|
    requires ",\n" + FieldLines(e, m) == Items(e, m) + ",\n"
    ensures ",\n" + FieldLines(e, m + 1) == Items(e, m + 1) + ",\n"
  {
    var f := e.keys[m];
    FieldLineItem(e, f);
    ShiftComma(FieldLines(e, m), Items(e, m), if Written(f) then FieldLine(f, e.vals[f]) else "", Item(e, f));
  }

  /** Each field line ends in the `,\n` that the next item begins with. */
  lemma {:induction false} FieldLinesItems(e: Entry, n: nat)
    requires Listed(e) && n <= |e.keys|
    ensures ",\n" + FieldLines(e, n) == Items(e, n) + ",\n"
  {
    if n > 0 {
      var m := n - 1;
      FieldLinesItems(e, m);
      FieldLinesItemsStep(e, m);
    }
  }

  /** An entry is `@type{id`, a `,\n\tfield = {value}` for each written
      field in order, and `}\n`. */
  lemma EntryTextShape(e: Entry)
    requires Listed(e) && "id" in e.vals && "type" in e.vals
    ensures EntryText(e) == "\n@" + e.vals["type"] + "{" + e.vals["id"] + Items(e, |e.keys|) + "}\n"
  {
    var head := "\n@" + e.vals["type"] + "{" + e.vals["id"];
    var items := Items(e, |e.keys|);
    FieldLinesItems(e, |e.keys|);
    var s := Header(e) + FieldLines(e, |e.keys|);
    assert Header(e) == head + ",\n";
    assert s == head + (items + ",\n");
    assert s[..|s| - 2] == head + items;
  }

  /** An entry with only `id` and `type` closes its header line at once. */
  lemma EntryTextBare()
    ensures EntryText(Dict(["id", "type"], map["id" := "b1", "type" := "book"])) == "\n@book{b1}\n"
  {
    var e := Dict(["id", "type"], map["id" := "b1", "type" := "book"]);
    EntryTextShape(e);
    assert Items(e, 2) == "";
  }

  // ---------------------------------------------------------------------------
  // the loop

  lemma FieldLinesNext(e: Entry, j: nat)
    requires Listed(e) && j < |e.keys|
    ensures var f := e.keys[j];
      FieldLines(e, j + 1) == FieldLines(e, j) + if Written(f) then FieldLine(f, e.vals[f]) else ""
  {
  }

  /** Dropping the last two characters of `p + q` drops them from `q`. */
  lemma DropTwo(p: string, q: string)
    requires |q| >= 2
    ensures (p + q)[..|p + q| - 2] == p + q[..|q| - 2]
  {
  }

  lemma RenderFirstNext(es: Entries, m: nat)
    requires WellFormed(es) && m < |es.keys|
    ensures es.keys[m] in es.vals
    ensures var e := es.vals[es.keys[m]]; Listed(e) && "id" in e.vals && "type" in e.vals
    ensures RenderFirst(es, m + 1) == RenderFirst(es, m) + EntryText(es.vals[es.keys[m]])
  {
    EntryFirstOk(es, m);
  }

  /** One pass of the outer loop of `bib_to_string`: appends entry `e` to
      the text so far. */
  method AppendEntry(s: string, e: Entry) returns (r: string)
    requires Listed(e) && "id" in e.vals && "type" in e.vals
    ensures r == s + EntryText(e)
  {
    r := s + Header(e);
    for j := 0 to |e.keys|
      invariant r == s + (Header(e) + FieldLines(e, j))
    {
      FieldLinesNext(e, j);
      var field := e.keys[j];
      if field != "id" && field != "type" {
        r := r + FieldLine(field, e.vals[field]);
      }
    }
    DropTwo(s, Header(e) + FieldLines(e, |e.keys|));
    r := r[..|r| - 2] + "}\n";
  }

  /** `bib_to_string` as the script runs it, appending to one string. */
  method BibToString(es: Entries) returns (s: string)
    requires WellFormed(es)
    ensures s == Rendered(es)
  {
    s := "";
    for i := 0 to |es.keys|
      invariant s == RenderFirst(es, i)
    {
      RenderFirstNext(es, i);
      s := AppendEntry(s, es.vals[es.keys[i]]);
    }
  }
}
