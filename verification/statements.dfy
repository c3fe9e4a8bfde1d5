/** The two statement renderers of the mapper. Both group the controls, then turn each
    group into the text of its members' descriptions: `generate_jsonl_statements` as
    one record per group, `generate_combined_statements` as a GovReady "combined"
    document with one statement per group under a fixed component/catalog skeleton.
    Records are kept as values; their JSON encoding is not modelled. */
module Statements {
  import opened Wrappers
  import opened Profile
  import opened Text
  import opened Grouping

  /** The fixed parts of the combined document. */
  const DefaultComponentName: string := "My Component"
  const Catalog: string := "NIST_SP-800-53_rev4"
  const Source: string := "Heimdall InSPec Profile from STIG"
  const Remarks: string := "Upstream source content is Heimdall InSpec Profile for component using oscal-lifecycle-examples/utils/inspect_nist_mapper.py"
  const Command: string := "inspect_nist_mapper.py"

  /** One JSON-lines record, `{"control_id": ..., "text": ...}`, before encoding. */
  datatype Line = Line(controlId: string, text: string)

  /** One statement of the combined document. */
  datatype Statement = Statement(text: string, source: string)

  datatype Metadata = Metadata(source: string, catalog: string, remarks: string, created: string, command: string)

  /** `{"components": {component: {catalog: {control_id: [statement]}}}, "metadata": [...]}`. */
  datatype Combined = Combined(
    components: map<string, map<string, map<string, seq<Statement>>>>,
    metadata: seq<Metadata>)

  /** What `generate_combined_statements` returns: the document, or `[]` when rendering
      raised. */
  datatype CombinedResult = Document(doc: Combined) | EmptyList

  predicate AllDescribed(cs: seq<Control>) {
    forall i :: 0 <= i < |cs| ==> cs[i].desc.Some?
  }

  /** `[c['desc'].replace("\n", " ") for c in members]`; None when a member has no
      `desc` (the subscript raises). */
  function CleanDescs(members: seq<Control>): (r: Option<seq<string>>)
    ensures r.Some? <==> AllDescribed(members)
    ensures r.Some? ==> |r.value| == |members|
    ensures r.Some? ==> forall i :: 0 <= i < |members| ==> r.value[i] == CleanDesc(members[i].desc.value)
  {
    if members == [] then Some([])
    else
      match members[0].desc
      case None => None
      case Some(d) =>
        match CleanDescs(members[1..])
        case None => None
        case Some(rest) => Some([CleanDesc(d)] + rest)
  }

  /** The loop of `generate_jsonl_statements` over the dictionary: one record per group,
      in dictionary order; None as soon as a member has no `desc`. */
  function RenderLines(g: Groups): (r: Option<seq<Line>>)
    ensures r.Some? <==> forall j :: 0 <= j < |g| ==> AllDescribed(g[j].1)
    ensures r.Some? ==> |r.value| == |g|
    ensures r.Some? ==> forall j :: 0 <= j < |g| ==>
      r.value[j] == Line(g[j].0, Join(CleanDescs(g[j].1).value))
  {
    if g == [] then Some([])
    else
      match CleanDescs(g[0].1)
      case None => None
      case Some(ds) =>
        match RenderLines(g[1..])
        case None => None
        case Some(rest) => Some([Line(g[0].0, Join(ds))] + rest)
  }

  function Ids(lines: seq<Line>): seq<string> {
    seq(|lines|, j requires 0 <= j < |lines| => lines[j].controlId)
  }

  /** Over a grouping, every group is fully described exactly when every control is. */
  lemma GroupsDescribed(g: Groups, cs: seq<Control>)
    requires IsGroupingOf(g, cs)
    ensures (forall j :: 0 <= j < |g| ==> AllDescribed(g[j].1)) <==> AllDescribed(cs)
  {
    ControlInOneGroup(g, cs);
    if forall j :: 0 <= j < |g| ==> AllDescribed(g[j].1) {
      forall i | 0 <= i < |cs| ensures cs[i].desc.Some? {
        var j :| 0 <= j < |g| && cs[i] in g[j].1;
        var p :| 0 <= p < |g[j].1| && g[j].1[p] == cs[i];
      }
    }
    if AllDescribed(cs) {
      forall j, p | 0 <= j < |g| && 0 <= p < |g[j].1| ensures g[j].1[p].desc.Some? {
        assert g[j].1 == Members(cs, g[j].0);
        var i :| 0 <= i < |cs| && cs[i] == g[j].1[p];
      }
    }
  }

  /** `generate_jsonl_statements(tag)`. When every control has a key and a description,
      there is one record per distinct first NIST identifier, in order of first
      appearance, and its text is the blank-line join of the newline-free descriptions
      of exactly the controls with that identifier, in input order. Otherwise (the
      grouping failed, or a `desc` is missing) the result is empty. */
  function JsonlStatements(cs: seq<Control>, tag: string): (r: seq<Line>)
    ensures !AllKeyed(cs) ==> r == []
    ensures AllKeyed(cs) && !AllDescribed(cs) ==> r == []
    ensures AllKeyed(cs) && AllDescribed(cs) ==>
      && FirstAppearanceOrder(Ids(r), cs)
      && (forall i :: 0 <= i < |cs| ==> NistKey(cs[i]).value in Ids(r))
      && (forall j :: 0 <= j < |r| ==>
            && Members(cs, r[j].controlId) != []
            && r[j].text == Join(CleanDescs(Members(cs, r[j].controlId)).value))
  {
    var g := MapControlsByTags(cs, tag);
    if AllKeyed(cs) then
      GroupsDescribed(g, cs);
      var r := RenderLines(g).GetOr([]);
      assert AllDescribed(cs) ==> Ids(r) == GroupKeys(g);
      r
    else
      []
  }

  /** The cleaned descriptions of fully described controls are free of line breaks and
      as long as the originals. */
  lemma CleanDescsShape(ms: seq<Control>)
    requires AllDescribed(ms)
    ensures forall i :: 0 <= i < |ms| ==>
      NoNewline(CleanDescs(ms).value[i]) && |CleanDescs(ms).value[i]| == |ms[i].desc.value|
  {
  }

  /** A record's text splits on blank lines back into the cleaned descriptions of its
      group's members, one per member, each free of line breaks and as long as the
      original description. */
  lemma JsonlRoundTrip(cs: seq<Control>, tag: string, j: nat)
    requires j < |JsonlStatements(cs, tag)|
    ensures AllDescribed(Members(cs, JsonlStatements(cs, tag)[j].controlId))
    ensures Split(JsonlStatements(cs, tag)[j].text)
         == CleanDescs(Members(cs, JsonlStatements(cs, tag)[j].controlId)).value
    ensures var ms := Members(cs, JsonlStatements(cs, tag)[j].controlId);
      forall i :: 0 <= i < |ms| ==>
        && NoNewline(Split(JsonlStatements(cs, tag)[j].text)[i])
        && |Split(JsonlStatements(cs, tag)[j].text)[i]| == |ms[i].desc.value|
  {
    var r := JsonlStatements(cs, tag);
    assert AllKeyed(cs) && AllDescribed(cs);
    var ms := Members(cs, r[j].controlId);
    assert AllDescribed(ms) by {
      forall p | 0 <= p < |ms| ensures ms[p].desc.Some? {
        var i :| 0 <= i < |cs| && cs[i] == ms[p];
      }
    }
    var ds := CleanDescs(ms).value;
    CleanDescsShape(ms);
    assert r[j].text == Join(ds);
    SplitJoin(ds);
  }

  /** Writes each record's statement under its identifier, in record order; a later
      record with the same identifier overwrites an earlier one. */
  function CatalogOf(lines: seq<Line>): map<string, seq<Statement>>
    decreases |lines|
  {
    if lines == [] then map[]
    else
      var last := lines[|lines| - 1];
      CatalogOf(lines[..|lines| - 1])[last.controlId := [Statement(last.text, Source)]]
  }

  /** The catalog's keys are exactly the records' identifiers. */
  lemma {:induction false} CatalogKeys(lines: seq<Line>)
    ensures forall id :: id in CatalogOf(lines) <==> id in Ids(lines)
    decreases |lines|
  {
    if lines != [] {
      var prefix := lines[..|lines| - 1];
      CatalogKeys(prefix);
      assert Ids(lines) == Ids(prefix) + [lines[|lines| - 1].controlId];
    }
  }

  /** A record not overwritten by a later one with the same identifier determines that
      identifier's statement. */
  lemma {:induction false} CatalogValue(lines: seq<Line>, j: nat)
    requires j < |lines|
    requires forall j' :: j < j' < |lines| ==> lines[j'].controlId != lines[j].controlId
    ensures lines[j].controlId in CatalogOf(lines)
    ensures CatalogOf(lines)[lines[j].controlId] == [Statement(lines[j].text, Source)]
    decreases |lines|
  {
    if j < |lines| - 1 {
      var prefix := lines[..|lines| - 1];
      assert prefix[j] == lines[j];
      CatalogValue(prefix, j);
    }
  }

  /** The records of a grouping carry its keys, in order. */
  lemma RenderedIds(g: Groups, lines: seq<Line>)
    requires RenderLines(g) == Some(lines)
    ensures Ids(lines) == GroupKeys(g)
  {
  }

  /** The catalog built from the records of a grouping has one key per identifier the
      controls carry. */
  lemma CatalogKeysOfGrouping(g: Groups, cs: seq<Control>, lines: seq<Line>)
    requires IsGroupingOf(g, cs)
    requires RenderLines(g) == Some(lines)
    ensures forall id :: id in CatalogOf(lines) <==> FirstIndex(cs, id) < |cs|
  {
    CatalogKeys(lines);
    RenderedIds(g, lines);
    forall id ensures id in CatalogOf(lines) <==> FirstIndex(cs, id) < |cs| {
      KeyOccurs(g, cs, id);
    }
  }

  /** Each key of the catalog built from the records of a grouping holds the joined
      text of exactly the controls with that identifier. */
  lemma CatalogValuesOfGrouping(g: Groups, cs: seq<Control>, lines: seq<Line>)
    requires IsGroupingOf(g, cs)
    requires RenderLines(g) == Some(lines)
    ensures forall id :: id in CatalogOf(lines) ==>
      CatalogOf(lines)[id] == [Statement(Join(CleanDescs(Members(cs, id)).value), Source)]
  {
    CatalogKeys(lines);
    RenderedIds(g, lines);
    forall id | id in CatalogOf(lines)
      ensures CatalogOf(lines)[id] == [Statement(Join(CleanDescs(Members(cs, id)).value), Source)]
    {
      var j :| 0 <= j < |lines| && Ids(lines)[j] == id;
      assert g[j].0 == id && g[j].1 == Members(cs, id);
      assert lines[j] == Line(g[j].0, Join(CleanDescs(g[j].1).value));
      CatalogValue(lines, j);
    }
  }

  /** What the combined renderer's loop sees: no records when the grouping fails, and
      otherwise records that exist exactly when every control is described and that
      build the catalog the reference description predicts. */
  lemma RenderedGrouping(cs: seq<Control>, tag: string)
    ensures !AllKeyed(cs) ==> RenderLines(MapControlsByTags(cs, tag)) == Some([])
    ensures AllKeyed(cs) ==> (RenderLines(MapControlsByTags(cs, tag)).Some? <==> AllDescribed(cs))
    ensures AllKeyed(cs) && RenderLines(MapControlsByTags(cs, tag)).Some? ==>
      var cat := CatalogOf(RenderLines(MapControlsByTags(cs, tag)).value);
      && (forall id :: id in cat <==> FirstIndex(cs, id) < |cs|)
      && (forall id :: id in cat ==> cat[id] == [Statement(Join(CleanDescs(Members(cs, id)).value), Source)])
  {
    var g := MapControlsByTags(cs, tag);
    if AllKeyed(cs) {
      GroupsDescribed(g, cs);
      if RenderLines(g).Some? {
        CatalogKeysOfGrouping(g, cs, RenderLines(g).value);
        CatalogValuesOfGrouping(g, cs, RenderLines(g).value);
      }
    }
  }

  /** The document skeleton around a catalog of statements. */
  function Skeleton(cmptName: string, created: string, catalog: map<string, seq<Statement>>): Combined {
    Combined(map[cmptName := map[Catalog := catalog]], [Metadata(Source, Catalog, Remarks, created, Command)])
  }

  /** The identifiers whose first appearance is among the controls are exactly the first
      NIST identifiers the controls carry. */
  lemma CarriedKeys(cs: seq<Control>, ids: set<string>)
    requires AllKeyed(cs)
    requires forall id :: id in ids <==> FirstIndex(cs, id) < |cs|
    ensures ids == set i | 0 <= i < |cs| :: NistKey(cs[i]).value
  {
    var carried := set i | 0 <= i < |cs| :: NistKey(cs[i]).value;
    forall id | id in ids ensures id in carried {
      var i := FirstIndex(cs, id);
      assert NistKey(cs[i]).value == id;
    }
    forall i | 0 <= i < |cs| ensures NistKey(cs[i]).value in ids {
      assert FirstIndex(cs, NistKey(cs[i]).value) <= i;
    }
  }

  /** When every control is keyed and described, the catalog built from the records has
      the first NIST identifiers the controls carry as its keys. */
  lemma RenderedKeys(cs: seq<Control>, tag: string)
    ensures AllKeyed(cs) && RenderLines(MapControlsByTags(cs, tag)).Some? ==>
      CatalogOf(RenderLines(MapControlsByTags(cs, tag)).value).Keys
        == set i | 0 <= i < |cs| :: NistKey(cs[i]).value
  {
    RenderedGrouping(cs, tag);
    if AllKeyed(cs) && RenderLines(MapControlsByTags(cs, tag)).Some? {
      CarriedKeys(cs, CatalogOf(RenderLines(MapControlsByTags(cs, tag)).value).Keys);
    }
  }

  /** `generate_combined_statements(cmpt_name, tag)` with the creation time supplied.
      It is `[]` exactly when every control has a key but some control has no `desc`.
      Otherwise it is a document with one component holding one catalog and one
      metadata record. The catalog's keys are the first NIST identifiers the controls
      carry; when the grouping fails the catalog is empty but the skeleton stays.
      `CombinedCatalogText` states what each key holds. */
  function CombinedStatements(cs: seq<Control>, cmptName: string, created: string, tag: string): (r: CombinedResult)
    ensures r.EmptyList? <==> AllKeyed(cs) && !AllDescribed(cs)
    ensures r.Document? ==>
      && r.doc.components.Keys == {cmptName}
      && r.doc.components[cmptName].Keys == {Catalog}
      && r.doc.metadata == [Metadata(Source, Catalog, Remarks, created, Command)]
    ensures r.Document? && !AllKeyed(cs) ==> r.doc.components[cmptName][Catalog] == map[]
    ensures r.Document? && AllKeyed(cs) ==>
      r.doc.components[cmptName][Catalog].Keys == set i | 0 <= i < |cs| :: NistKey(cs[i]).value
  {
    RenderedGrouping(cs, tag);
    RenderedKeys(cs, tag);
    match RenderLines(MapControlsByTags(cs, tag))
    case None => EmptyList
    case Some(lines) =>
      Document(Skeleton(cmptName, created, CatalogOf(lines)))
  }

  /** `generate_combined_statements()` called without a component name: the document,
      when there is one, files its catalog under "My Component". */
  function CombinedStatementsDefault(cs: seq<Control>, created: string, tag: string): (r: CombinedResult)
    ensures r.EmptyList? <==> AllKeyed(cs) && !AllDescribed(cs)
    ensures r.Document? ==>
      && r.doc.components.Keys == {"My Component"}
      && r.doc.components["My Component"].Keys == {Catalog}
  {
    CombinedStatements(cs, DefaultComponentName, created, tag)
  }

  /** Each catalog key holds a single statement, carrying the fixed source label and the
      blank-line join of the cleaned descriptions of exactly the controls with that key,
      in input order. */
  lemma CombinedCatalogText(cs: seq<Control>, cmptName: string, created: string, tag: string)
    ensures var r := CombinedStatements(cs, cmptName, created, tag);
      r.Document? ==> forall id :: id in r.doc.components[cmptName][Catalog] ==>
        && AllDescribed(Members(cs, id))
        && r.doc.components[cmptName][Catalog][id] == [Statement(Join(CleanDescs(Members(cs, id)).value), Source)]
  {
    RenderedGrouping(cs, tag);
  }

  /** The two renderers agree. The combined document is `[]` only when the JSON-lines
      output is empty. Otherwise its catalog has exactly the records' identifiers as
      keys, and each key holds one statement carrying its record's text and the fixed
      source label. */
  lemma CombinedMatchesJsonl(cs: seq<Control>, cmptName: string, created: string, tag: string)
    ensures CombinedStatements(cs, cmptName, created, tag).EmptyList? ==> JsonlStatements(cs, tag) == []
    ensures var r := CombinedStatements(cs, cmptName, created, tag);
      var lines := JsonlStatements(cs, tag);
      r.Document? ==>
        && (forall id :: id in r.doc.components[cmptName][Catalog] <==> id in Ids(lines))
        && (forall j :: 0 <= j < |lines| ==>
              r.doc.components[cmptName][Catalog][lines[j].controlId] == [Statement(lines[j].text, Source)])
  {
    var r := CombinedStatements(cs, cmptName, created, tag);
    var lines := JsonlStatements(cs, tag);
    RenderedGrouping(cs, tag);
    if r.Document? {
      assert r.doc.components[cmptName][Catalog] == CatalogOf(lines);
      CatalogKeys(lines);
      forall j | 0 <= j < |lines|
        ensures r.doc.components[cmptName][Catalog][lines[j].controlId] == [Statement(lines[j].text, Source)]
      {
        forall j' | j < j' < |lines| ensures lines[j'].controlId != lines[j].controlId {
          assert Ids(lines)[j] == lines[j].controlId && Ids(lines)[j'] == lines[j'].controlId;
        }
        CatalogValue(lines, j);
      }
    }
  }

  /** Two controls under AC-1, the first with a line break in its description, give one
      record whose text has the break replaced and the two descriptions separated by a
      blank line. */
  lemma TwoControlsOneRecord(c1: Control, c2: Control)
    requires c1 == Control(Some("a\nb"), Some(map["nist" := ["AC-1"]]))
    requires c2 == Control(Some("c"), Some(map["nist" := ["AC-1"]]))
    ensures JsonlStatements([c1, c2], Nist) == [Line("AC-1", "a b\n\nc")]
  {
    TwoControlsGroup(c1, c2);
    TwoControlsText(c1, c2);
    var g := [("AC-1", [c1, c2])];
    assert g[1..] == [] && RenderLines([]) == Some([]);
    assert RenderLines(g) == Some([Line("AC-1", Join(["a b", "c"]))] + []);
    assert [Line("AC-1", "a b\n\nc")] + [] == [Line("AC-1", "a b\n\nc")];
    assert AllKeyed([c1, c2]);
  }

  lemma TwoControlsGroup(c1: Control, c2: Control)
    requires c1 == Control(Some("a\nb"), Some(map["nist" := ["AC-1"]]))
    requires c2 == Control(Some("c"), Some(map["nist" := ["AC-1"]]))
    ensures MapControlsByTags([c1, c2], Nist) == [("AC-1", [c1, c2])]
  {
    assert NistKey(c1) == Some("AC-1") && NistKey(c2) == Some("AC-1");
    assert [c1][..0] == [];
    assert Group([c1]) == Some([("AC-1", [c1])]);
    assert [c1, c2][..1] == [c1];
    assert [("AC-1", [c1])][1..] == [] && [c1] + [c2] == [c1, c2];
    assert Insert([("AC-1", [c1])], "AC-1", c2) == [("AC-1", [c1, c2])];
    assert Group([c1, c2]) == Some([("AC-1", [c1, c2])]);
  }

  lemma TwoControlsText(c1: Control, c2: Control)
    requires c1 == Control(Some("a\nb"), Some(map["nist" := ["AC-1"]]))
    requires c2 == Control(Some("c"), Some(map["nist" := ["AC-1"]]))
    ensures CleanDescs([c1, c2]) == Some(["a b", "c"])
    ensures Join(["a b", "c"]) == "a b\n\nc"
  {
    assert "c"[1..] == [] && "b"[1..] == [] && "\nb"[1..] == "b" && "a\nb"[1..] == "\nb";
    assert CleanDesc("c") == "c";
    assert CleanDesc("b") == "b";
    assert CleanDesc("\nb") == " b";
    assert CleanDesc("a\nb") == "a b";
    assert [c1, c2][1..] == [c2] && [c2][1..] == [];
    assert CleanDescs([]) == Some([]);
    assert c2.desc == Some("c");
    assert CleanDescs([c2]) == Some([CleanDesc("c")] + []);
    assert [CleanDesc("c")] + [] == ["c"];
    assert CleanDescs([c2]) == Some(["c"]);
    assert [CleanDesc("a\nb")] + ["c"] == ["a b", "c"];
    assert ["a b", "c"][1..] == ["c"];
    assert Join(["c"]) == "c";
    assert "a b" + Separator + "c" == "a b\n\nc";
  }
}
