/** `_format_context` of rag_pipeline/rag.py: the prompt context built from the retrieved
    items and the chunk texts stored in chunks.jsonl. */
module Context {
  import opened Wrappers
  import Strings
  import Retriever

  /** The string placed between two parts. */
  const Separator := "\n\n---\n\n"

  /** The citation tag of a chunk: `[source:S#ID]`. */
  function Header(source: string, chunkId: string): string {
    "[source:" + source + "#" + chunkId + "]"
  }

  /** One part: the citation tag, a newline, then the chunk text. */
  function Part(source: string, chunkId: string, text: string): string {
    Header(source, chunkId) + "\n" + text
  }

  /** The table `texts` after reading the records in order: chunk id to text (`""`
      when the record has none); a later record with the same id overwrites. */
  function TextTable(records: seq<Retriever.StoredRow>): map<string, string> {
    if records == [] then map[]
    else
      var r := records[|records| - 1];
      TextTable(records[..|records| - 1])[r.chunkId := r.text.GetOr([])]
  }

  /** `texts.get(cid, "")`. */
  function Lookup(table: map<string, string>, chunkId: string): string {
    if chunkId in table then table[chunkId] else []
  }

  function ItemPart<S>(item: Retriever.Retrieved<S>, table: map<string, string>): string {
    Part(item.entry.source, item.entry.chunkId, Lookup(table, item.entry.chunkId))
  }

  /** One part per retrieved item, in retrieved order. */
  function Parts<S>(items: seq<Retriever.Retrieved<S>>, table: map<string, string>): (parts: seq<string>)
    ensures |parts| == |items|
  {
    seq(|items|, i requires 0 <= i < |items| => ItemPart(items[i], table))
  }

  /** The context for the retrieved items, given the records of chunks.jsonl. */
  function ContextOf<S>(items: seq<Retriever.Retrieved<S>>, records: seq<Retriever.StoredRow>): string {
    Strings.JoinWith(Parts(items, TextTable(records)), Separator)
  }

  /** The first loop: fill the table line by line. */
  method LoadTextTable(records: seq<Retriever.StoredRow>) returns (texts: map<string, string>)
    ensures texts == TextTable(records)
  {
    texts := map[];
    for k := 0 to |records|
      invariant texts == TextTable(records[..k])
    {
      assert records[..k + 1][..k] == records[..k];
      var obj := records[k];
      texts := texts[obj.chunkId := obj.text.GetOr([])];
    }
    assert records[..|records|] == records;
  }

  /** `_format_context`: load the table, build the parts, join them. */
  method FormatContext<S>(chunks: seq<Retriever.Retrieved<S>>, records: seq<Retriever.StoredRow>) returns (context: string)
    ensures context == ContextOf(chunks, records)
  {
    var texts := LoadTextTable(records);
    var parts: seq<string> := [];
    for i := 0 to |chunks|
      invariant parts == Parts(chunks[..i], texts)
    {
      var cid := chunks[i].entry.chunkId;
      var src := chunks[i].entry.source;
      var txt := if cid in texts then texts[cid] else [];
      parts := parts + [Header(src, cid) + "\n" + txt];
    }
    assert chunks[..|chunks|] == chunks;
    context := Strings.JoinWith(parts, Separator);
  }

  // ---------------------------------------------------------------------------
  // Properties

  /** The table holds exactly the ids of the records. */
  lemma {:induction false} TextTableKeys(records: seq<Retriever.StoredRow>)
    ensures forall id :: id in TextTable(records) <==> exists i :: 0 <= i < |records| && records[i].chunkId == id
    decreases |records|
  {
    if records != [] {
      var init := records[..|records| - 1];
      TextTableKeys(init);
      var last := |records| - 1;
      forall id ensures id in TextTable(records) <==> exists i :: 0 <= i < |records| && records[i].chunkId == id {
        if id in TextTable(init) {
          var i :| 0 <= i < |init| && init[i].chunkId == id;
          assert records[i] == init[i];
        }
        if exists i :: 0 <= i < |records| && records[i].chunkId == id {
          var i :| 0 <= i < |records| && records[i].chunkId == id;
          if i < last {
            assert init[i] == records[i];
          }
        }
      }
    }
  }

  /** Each id maps to the text of the last record that carries it. */
  lemma {:induction false} TextTableLastRecord(records: seq<Retriever.StoredRow>, i: int)
    requires 0 <= i < |records|
    requires forall j :: i < j < |records| ==> records[j].chunkId != records[i].chunkId
    ensures records[i].chunkId in TextTable(records)
    ensures TextTable(records)[records[i].chunkId] == records[i].text.GetOr([])
    decreases |records|
  {
    var init := records[..|records| - 1];
    var last := |records| - 1;
    if i < last {
      assert init[i] == records[i];
      forall j | i < j < |init| ensures init[j].chunkId != init[i].chunkId {
        assert init[j] == records[j];
      }
      TextTableLastRecord(init, i);
      assert records[last].chunkId != records[i].chunkId;
    }
  }

  /** The table holds exactly the ids of the records, and each id maps to the text of
      the last record that carries it. */
  lemma TextTableLastWins(records: seq<Retriever.StoredRow>)
    ensures forall id :: id in TextTable(records) <==> exists i :: 0 <= i < |records| && records[i].chunkId == id
    ensures forall i :: 0 <= i < |records| && (forall j :: i < j < |records| ==> records[j].chunkId != records[i].chunkId) ==>
              TextTable(records)[records[i].chunkId] == records[i].text.GetOr([])
  {
    TextTableKeys(records);
    forall i | 0 <= i < |records| && (forall j :: i < j < |records| ==> records[j].chunkId != records[i].chunkId)
      ensures TextTable(records)[records[i].chunkId] == records[i].text.GetOr([])
    {
      TextTableLastRecord(records, i);
    }
  }

  /** No items give the empty context; n items give their n parts with n - 1 separators. */
  lemma ContextLength<S>(items: seq<Retriever.Retrieved<S>>, records: seq<Retriever.StoredRow>)
    ensures items == [] ==> ContextOf(items, records) == []
    ensures items != [] ==>
      |ContextOf(items, records)| == Strings.TotalLength(Parts(items, TextTable(records))) + (|items| - 1) * |Separator|
  {
    Strings.JoinLength(Parts(items, TextTable(records)), Separator);
  }

  /** Every retrieved item's part, and so its citation tag, occurs in the context. */
  lemma ContextCitesEveryItem<S>(items: seq<Retriever.Retrieved<S>>, records: seq<Retriever.StoredRow>)
    ensures forall i :: 0 <= i < |items| ==>
      Strings.Contains(ContextOf(items, records), ItemPart(items[i], TextTable(records))) &&
      Strings.Contains(ContextOf(items, records), Header(items[i].entry.source, items[i].entry.chunkId))
  {
    var table := TextTable(records);
    var parts := Parts(items, table);
    var context := ContextOf(items, records);
    Strings.JoinContainsParts(parts, Separator);
    forall i | 0 <= i < |items|
      ensures Strings.Contains(context, ItemPart(items[i], table))
      ensures Strings.Contains(context, Header(items[i].entry.source, items[i].entry.chunkId))
    {
      var e := items[i].entry;
      assert parts[i] == ItemPart(items[i], table);
      PartHasHeader(e.source, e.chunkId, Lookup(table, e.chunkId));
      Strings.ContainsTransitive(context, parts[i], Header(e.source, e.chunkId));
    }
  }

  lemma PartHasHeader(source: string, chunkId: string, text: string)
    ensures Strings.Contains(Part(source, chunkId, text), Header(source, chunkId))
  {
    var h := Header(source, chunkId);
    Strings.ContainsInfix([], h, "\n" + text);
    assert [] + h + ("\n" + text) == Part(source, chunkId, text);
  }

  /** The context reads the table only at the retrieved ids: two tables that agree there
      give the same context. */
  lemma ContextDependsOnlyOnRetrievedIds<S>(items: seq<Retriever.Retrieved<S>>, t1: map<string, string>, t2: map<string, string>)
    requires forall i :: 0 <= i < |items| ==> Lookup(t1, items[i].entry.chunkId) == Lookup(t2, items[i].entry.chunkId)
    ensures Strings.JoinWith(Parts(items, t1), Separator) == Strings.JoinWith(Parts(items, t2), Separator)
  {
    assert Parts(items, t1) == Parts(items, t2);
  }
}
