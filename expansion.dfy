/** The loops of `--expand` in crossrefs.py, as the script runs them: they
    compute the states `Crossrefs.ExpandFirst`, `Crossrefs.ConsumedFirst` and
    `Crossrefs.Expanded` describe. */
module Expansion {
  import opened Dicts
  import opened Crossrefs

  /** The inner loop of crossrefs.py:131-140 over the target's fields. */
  method ExpandFields(e: Entry, t: Entry) returns (r: Entry)
    requires Listed(t)
    ensures r == CopyFields(e, t, t.keys)
  {
    r := e;
    for j := 0 to |t.keys|
      invariant r == CopyFields(e, t, t.keys[..j])
    {
      var field := t.keys[j];
      CopyFieldsNext(e, t, j);
      if field == "title" {
        r := Set(r, "booktitle", t.vals["title"]);
      } else if field == "subtitle" {
        r := Set(r, "booksubtitle", t.vals["subtitle"]);
      } else if InLeave(field) {
      } else {
        r := Set(r, field, t.vals[field]);
      }
    }
    assert t.keys[..|t.keys|] == t.keys;
  }

  /** One pass of the outer loop as crossrefs.py:128-141 runs it. */
  method ExpandEntry(es: Entries, entry: string) returns (r: Entries, crossref: set<string>)
    requires entry in es.vals && ("crossref" in es.vals[entry].vals ==> Expandable(es, entry))
    ensures r == ExpandStep(es, entry)
    ensures crossref == Named(es, entry)
  {
    r := es;
    crossref := {};
    if "crossref" in es.vals[entry].vals {
      var c := es.vals[entry].vals["crossref"];
      crossref := {c};
      var x := ExpandFields(es.vals[entry], es.vals[c]);
      x := Delete(x, "crossref");
      r := Dict(es.keys, es.vals[entry := x]);
    }
  }

  /** The outer loop of crossrefs.py:127-141: expands each referrer in turn
      and collects the targets. */
  method ExpandEntries(es: Entries) returns (r: Entries, crossrefs: set<string>)
    requires Ready(es)
    ensures (r, crossrefs) == (ExpandFirst(es, |es.keys|), ConsumedFirst(es, |es.keys|))
  {
    r := es;
    crossrefs := {};
    for i := 0 to |es.keys|
      invariant (r, crossrefs) == (ExpandFirst(es, i), ConsumedFirst(es, i))
    {
      var entry := es.keys[i];
      ExpandFirstNext(es, i);
      ExpandFirstNextState(es, i);
      var c;
      r, c := ExpandEntry(r, entry);
      crossrefs := crossrefs + c;
    }
  }

  /** `del entries[key]` for each collected target, in whatever order the
      set yields them; the result does not depend on it. */
  method DeleteConsumed(es: Entries, gone: set<string>) returns (r: Entries)
    requires gone <= es.vals.Keys
    ensures r == Prune(es, gone)
  {
    r := es;
    PruneNone(es);
    var rest := gone;
    assert gone - rest == {};
    while rest != {}
      invariant rest <= gone && r == Prune(es, gone - rest)
      decreases |rest|
    {
      var key :| key in rest;
      PruneMore(es, gone - rest, key);
      r := Delete(r, key);
      assert (gone - rest) + {key} == gone - (rest - {key});
      rest := rest - {key};
    }
    assert gone - {} == gone;
  }

  /** `--expand`: the bibliography left to write, and the targets found. The
      source writes the file only when some target was found; without one
      the bibliography is unchanged (`ExpansionNothing`). */
  method Expand(es: Entries) returns (r: Entries, crossrefs: set<string>)
    requires Ready(es)
    ensures (r, crossrefs) == (Expanded(es), Consumed(es))
  {
    r, crossrefs := ExpandEntries(es);
    ConsumedFirstKeys(es, |es.keys|);
    if crossrefs != {} {
      r := DeleteConsumed(r, crossrefs);
    } else {
      PruneNone(r);
    }
  }
}
