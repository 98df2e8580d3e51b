/** `extractSpecsFromHTML`: the page's metadata (phone name, release date,
    price) and its specification tables, as a map from category name to a map
    from attribute label to value. */
module SpecExtractor {
  import opened Optional
  import opened Text
  import opened Page
  import opened Sequences

  type Specs = map<string, map<string, string>>

  datatype Extraction = Extraction(metadata: map<string, string>, specs: Specs)

  const PhoneNameKey: string := "Phone Name"
  const ReleaseDateKey: string := "Release Date"
  const PriceKey: string := "Price"

  /** The metadata map: each field is set, to the cleaned text, exactly when
      its raw text is truthy (a whitespace-only text is truthy and is stored
      as the empty string). */
  function MetadataOf(doc: Document): (m: map<string, string>)
    ensures PhoneNameKey in m <==> doc.title != []
    ensures PhoneNameKey in m ==> Some(m[PhoneNameKey]) == CleanText(Some(doc.title))
    ensures ReleaseDateKey in m <==> Truthy(doc.releaseCalendar)
    ensures ReleaseDateKey in m ==> Some(m[ReleaseDateKey]) == CleanText(doc.releaseCalendar)
    ensures PriceKey in m <==> doc.priceBlock != []
    ensures PriceKey in m ==> Some(m[PriceKey]) == CleanText(Some(doc.priceBlock))
    ensures m.Keys <= {PhoneNameKey, ReleaseDateKey, PriceKey}
  {
    var m0: map<string, string> := map[];
    var m1 := if doc.title != [] then m0[PhoneNameKey := CleanText(Some(doc.title)).value] else m0;
    var m2 := if Truthy(doc.releaseCalendar) then m1[ReleaseDateKey := CleanText(doc.releaseCalendar).value] else m1;
    if doc.priceBlock != [] then m2[PriceKey := CleanText(Some(doc.priceBlock)).value] else m2
  }

  /** The selector `tbody[id$="-specs"]`. */
  predicate IsSpecBlock(t: TableBody)
  {
    EndsWith(t.id, "-specs")
  }

  /** The id with its first `-specs` removed and then its first `&amp;` turned into `&`. */
  function StrippedId(id: string): string
  {
    ReplaceFirst(ReplaceFirst(id, "-specs", ""), "&amp;", "&")
  }

  /** The category name derived from a table body's id: `StrippedId`, every
      `-` turned into a space, then each space-separated word capitalized. */
  function FallbackName(id: string): string
  {
    TitleCase(ReplaceAll(StrippedId(id), '-', ' '))
  }

  /** A truthy section header, cleaned, overrides the name derived from the id. */
  function CategoryName(t: TableBody): string
  {
    if Truthy(t.header) then CleanText(t.header).value else FallbackName(t.id)
  }

  /** One recorded attribute: `specs.specs[category][label] = value`. */
  datatype Entry = Entry(category: string, name: string, value: string)

  /** The entry a row records under `category`, if both its cleaned label and
      its cleaned value are truthy. */
  function RowEntry(category: string, row: Row): Option<Entry>
  {
    var name, value := CleanText(Some(row.heading)), CleanText(Some(row.text));
    if Truthy(name) && Truthy(value) then Some(Entry(category, name.value, value.value)) else None
  }

  /** The entries recorded by `rows`, in order. */
  function RowEntries(category: string, rows: seq<Row>): seq<Entry>
    decreases |rows|
  {
    if rows == [] then []
    else
      var init := RowEntries(category, rows[..|rows| - 1]);
      match RowEntry(category, rows[|rows| - 1])
      case Some(e) => init + [e]
      case None => init
  }

  /** The entries recorded by one table body: none unless it is a specification block. */
  function BlockEntries(t: TableBody): seq<Entry>
  {
    if IsSpecBlock(t) then RowEntries(CategoryName(t), t.rows) else []
  }

  /** The entries recorded by a sequence of table bodies, in document order. */
  function Entries(ts: seq<TableBody>): seq<Entry>
    decreases |ts|
  {
    if ts == [] then [] else Entries(ts[..|ts| - 1]) + BlockEntries(ts[|ts| - 1])
  }

  /** The labels recorded under category `c`, none when it is missing. */
  function Labels(m: Specs, c: string): map<string, string>
  {
    if c in m then m[c] else map[]
  }

  /** `m[category][label] = value`, creating the category when it is missing. */
  function Put(m: Specs, e: Entry): Specs
  {
    m[e.category := Labels(m, e.category)[e.name := e.value]]
  }

  /** The specification map that recording `es` one after another builds from `{}`. */
  function Build(es: seq<Entry>): Specs
    decreases |es|
  {
    if es == [] then map[] else Put(Build(es[..|es| - 1]), es[|es| - 1])
  }

  /** The `specs` part of the extraction of a page whose table bodies are `ts`. */
  function SpecsOf(ts: seq<TableBody>): Specs
  {
    Build(Entries(ts))
  }

  /** The whole extraction result of a page. */
  function ExtractionOf(doc: Document): Extraction
  {
    Extraction(MetadataOf(doc), SpecsOf(doc.tableBodies))
  }

  /** Category-wise union in which the labels of `b` win over those of `a`. */
  function Merge(a: Specs, b: Specs): Specs
  {
    map c | c in a.Keys + b.Keys :: Labels(a, c) + Labels(b, c)
  }

  // ---------------------------------------------------------------------------
  // Category names

  /** Character `i` of the derived name of a stripped id `d`: a `-` becomes a
      space, the first character and every character after a `-` or a space
      is upper-cased, and every other character is kept. */
  function DerivedChar(d: string, i: nat): char
    requires i < |d|
  {
    if d[i] == '-' then ' '
    else if i == 0 || d[i - 1] == '-' || d[i - 1] == ' ' then ToUpper(d[i])
    else d[i]
  }

  /** The derived name turns every `-` into a space and upper-cases the first
      character and every character that follows a `-` or a space. */
  lemma FallbackNameAt(id: string)
    ensures var d := StrippedId(id);
      && |FallbackName(id)| == |d|
      && forall i :: 0 <= i < |d| ==> FallbackName(id)[i] == DerivedChar(d, i)
  {
    var d := StrippedId(id);
    var h := ReplaceAll(d, '-', ' ');
    TitleCaseAt(h);
    assert CapitalizedWords(h, FallbackName(id));
    forall i | 0 <= i < |d|
      ensures FallbackName(id)[i] == DerivedChar(d, i)
    {
      assert h[i] == if d[i] == '-' then ' ' else d[i];
      if i > 0 { assert h[i - 1] == if d[i - 1] == '-' then ' ' else d[i - 1]; }
    }
  }

  /** A truthy section header names the category, whatever the id; a header
      that is only whitespace is truthy and names the category `""`. */
  lemma CategoryNameFromHeader(t: TableBody)
    requires Truthy(t.header)
    ensures CategoryName(t) == CleanText(t.header).value
    ensures NonSpace(t.header.value) == [] ==> CategoryName(t) == []
  {
    var c := CleanText(t.header).value;
    CleanTextNormalized(t.header);
    CleanTextKeepsContent(t.header);
    if c != [] {
      NonSpaceFirst(c);
    }
  }

  // ---------------------------------------------------------------------------
  // Rows

  lemma NonSpaceFirst(s: string)
    requires s != [] && !IsSpace(s[0])
    ensures NonSpace(s) != []
  {
    assert NonSpace(s) == [s[0]] + NonSpace(s[1..]);
  }

  /** `cleanText` of a text is truthy exactly when the text holds a character
      that is not whitespace. */
  lemma CleanTruthyIff(s: string)
    ensures Truthy(CleanText(Some(s))) <==> NonSpace(s) != []
  {
    if s != [] {
      CleanTextNormalized(Some(s));
      CleanTextKeepsContent(Some(s));
      var c := CleanText(Some(s)).value;
      if c != [] {
        assert !IsSpace(c[0]);
        NonSpaceFirst(c);
      }
    }
  }

  /** A row is recorded exactly when its label and its value each hold a
      character that is not whitespace; it is then recorded under the
      block's category with both texts cleaned. */
  lemma RowKeptIff(category: string, row: Row)
    ensures RowEntry(category, row).Some? <==> NonSpace(row.heading) != [] && NonSpace(row.text) != []
    ensures RowEntry(category, row).Some? ==>
      && RowEntry(category, row).value.category == category
      && Some(RowEntry(category, row).value.name) == CleanText(Some(row.heading))
      && Some(RowEntry(category, row).value.value) == CleanText(Some(row.text))
  {
    CleanTruthyIff(row.heading);
    CleanTruthyIff(row.text);
  }

  lemma {:induction false} RowEntriesAppend(category: string, a: seq<Row>, b: seq<Row>)
    ensures RowEntries(category, a + b) == RowEntries(category, a) + RowEntries(category, b)
    decreases |b|
  {
    if b == [] {
      assert a + b == a;
    } else {
      var b0 := b[..|b| - 1];
      assert (a + b)[..|a + b| - 1] == a + b0;
      assert (a + b)[|a + b| - 1] == b[|b| - 1];
      RowEntriesAppend(category, a, b0);
      match RowEntry(category, b[|b| - 1])
      case Some(e) =>
        AppendAssoc(RowEntries(category, a), RowEntries(category, b0), [e]);
      case None =>
    }
  }

  lemma {:induction false} EntriesAppend(ts: seq<TableBody>, us: seq<TableBody>)
    ensures Entries(ts + us) == Entries(ts) + Entries(us)
    decreases |us|
  {
    if us == [] {
      assert ts + us == ts;
    } else {
      var u0 := us[..|us| - 1];
      var last := us[|us| - 1];
      assert (ts + us)[..|ts + us| - 1] == ts + u0;
      assert (ts + us)[|ts + us| - 1] == last;
      EntriesAppend(ts, u0);
      var b := BlockEntries(last);
      assert Entries(ts + us) == Entries(ts + u0) + b;
      assert Entries(us) == Entries(u0) + b;
      AppendAssoc(Entries(ts), Entries(u0), b);
    }
  }

  lemma RowEntriesSingleSkip(category: string, row: Row)
    requires RowEntry(category, row).None?
    ensures RowEntries(category, [row]) == []
  {
    assert [row][..0] == [];
  }

  /** A skipped row inserted anywhere adds no entry. */
  lemma RowEntriesSkip(category: string, rows: seq<Row>, j: nat, row: Row)
    requires j <= |rows| && RowEntry(category, row).None?
    ensures RowEntries(category, rows[..j] + [row] + rows[j..]) == RowEntries(category, rows)
  {
    var before, after := rows[..j], rows[j..];
    RowEntriesAppend(category, before + [row], after);
    RowEntriesAppend(category, before, [row]);
    RowEntriesSingleSkip(category, row);
    AppendEmpty(RowEntries(category, before));
    RowEntriesAppend(category, before, after);
    SplitAt(rows, j);
  }

  lemma EntriesSingle(t: TableBody)
    ensures Entries([t]) == BlockEntries(t)
  {
    assert [t][..0] == [];
  }

  /** The entries of a page split around any one table body. */
  lemma EntriesSplitAt(ts: seq<TableBody>, i: nat)
    requires i < |ts|
    ensures Entries(ts) == Entries(ts[..i]) + BlockEntries(ts[i]) + Entries(ts[i + 1..])
  {
    SplitAround(ts, i);
    EntriesAppend(ts[..i], [ts[i]] + ts[i + 1..]);
    EntriesAppend([ts[i]], ts[i + 1..]);
    EntriesSingle(ts[i]);
    AppendAssoc(Entries(ts[..i]), BlockEntries(ts[i]), Entries(ts[i + 1..]));
  }

  /** Replacing a table body by one that records the same entries changes no entry. */
  lemma EntriesReplace(ts: seq<TableBody>, i: nat, t: TableBody)
    requires i < |ts| && BlockEntries(t) == BlockEntries(ts[i])
    ensures Entries(ts[i := t]) == Entries(ts)
  {
    EntriesSplitAt(ts, i);
    EntriesSplitAt(ts[i := t], i);
    assert ts[i := t][..i] == ts[..i];
    assert ts[i := t][i + 1..] == ts[i + 1..];
  }

  /** Inserting a row that is skipped anywhere in a table body changes nothing in the result. */
  lemma SkippedRowIrrelevant(ts: seq<TableBody>, i: nat, j: nat, row: Row)
    requires i < |ts| && j <= |ts[i].rows|
    requires RowEntry(CategoryName(ts[i]), row).None?
    ensures var t := ts[i].(rows := ts[i].rows[..j] + [row] + ts[i].rows[j..]);
      SpecsOf(ts[i := t]) == SpecsOf(ts)
  {
    var t := ts[i].(rows := ts[i].rows[..j] + [row] + ts[i].rows[j..]);
    var c := CategoryName(ts[i]);
    assert CategoryName(t) == c && IsSpecBlock(t) == IsSpecBlock(ts[i]);
    RowEntriesSkip(c, ts[i].rows, j, row);
    EntriesReplace(ts, i, t);
  }

  // ---------------------------------------------------------------------------
  // Where the entries come from

  /** `KeptRow(ts, i, j)`: row `j` of table body `i` is a specification row that is recorded. */
  predicate KeptRow(ts: seq<TableBody>, i: int, j: int)
  {
    && 0 <= i < |ts| && IsSpecBlock(ts[i]) && 0 <= j < |ts[i].rows|
    && RowEntry(CategoryName(ts[i]), ts[i].rows[j]).Some?
  }

  /** Every entry of `rows` comes from one of its rows. */
  lemma {:induction false} RowEntriesSound(category: string, rows: seq<Row>, e: Entry)
    requires e in RowEntries(category, rows)
    ensures exists j :: 0 <= j < |rows| && RowEntry(category, rows[j]) == Some(e)
    decreases |rows|
  {
    var init := rows[..|rows| - 1];
    if e in RowEntries(category, init) {
      RowEntriesSound(category, init, e);
      var j :| 0 <= j < |init| && RowEntry(category, init[j]) == Some(e);
      assert rows[j] == init[j];
    } else {
      assert RowEntry(category, rows[|rows| - 1]) == Some(e);
    }
  }

  /** Every recorded row of `rows` gives an entry. */
  lemma {:induction false} RowEntriesComplete(category: string, rows: seq<Row>, j: nat)
    requires j < |rows| && RowEntry(category, rows[j]).Some?
    ensures RowEntry(category, rows[j]).value in RowEntries(category, rows)
    decreases |rows|
  {
    var init := rows[..|rows| - 1];
    if j < |init| {
      assert rows[j] == init[j];
      RowEntriesComplete(category, init, j);
    } else {
      var e := RowEntry(category, rows[j]).value;
      assert rows[|rows| - 1] == rows[j];
      assert RowEntries(category, rows) == RowEntries(category, init) + [e];
      assert (RowEntries(category, init) + [e])[|RowEntries(category, init)|] == e;
    }
  }

  /** Every entry of a page comes from a recorded row of a specification block. */
  lemma {:induction false} EntriesSound(ts: seq<TableBody>, e: Entry)
    requires e in Entries(ts)
    ensures exists i, j :: KeptRow(ts, i, j) && RowEntry(CategoryName(ts[i]), ts[i].rows[j]) == Some(e)
    decreases |ts|
  {
    var init, t := ts[..|ts| - 1], ts[|ts| - 1];
    if e in Entries(init) {
      EntriesSound(init, e);
      var i, j :| KeptRow(init, i, j) && RowEntry(CategoryName(init[i]), init[i].rows[j]) == Some(e);
      assert init[i] == ts[i];
      assert KeptRow(ts, i, j);
    } else {
      assert e in BlockEntries(t);
      assert IsSpecBlock(t);
      RowEntriesSound(CategoryName(t), t.rows, e);
      var j :| 0 <= j < |t.rows| && RowEntry(CategoryName(t), t.rows[j]) == Some(e);
      assert KeptRow(ts, |ts| - 1, j);
    }
  }

  /** Every recorded row of a specification block gives an entry of the page. */
  lemma {:induction false} EntriesComplete(ts: seq<TableBody>, i: nat, j: nat)
    requires KeptRow(ts, i, j)
    ensures RowEntry(CategoryName(ts[i]), ts[i].rows[j]).value in Entries(ts)
    decreases |ts|
  {
    var init, t := ts[..|ts| - 1], ts[|ts| - 1];
    if i < |init| {
      assert init[i] == ts[i];
      assert KeptRow(init, i, j);
      EntriesComplete(init, i, j);
    } else {
      RowEntriesComplete(CategoryName(t), t.rows, j);
    }
  }

  /** The entries of a page are exactly the recorded rows of its specification blocks. */
  lemma EntriesMember(ts: seq<TableBody>, e: Entry)
    ensures e in Entries(ts) <==>
      exists i, j :: KeptRow(ts, i, j) && RowEntry(CategoryName(ts[i]), ts[i].rows[j]) == Some(e)
  {
    if e in Entries(ts) {
      EntriesSound(ts, e);
    }
    if exists i, j :: KeptRow(ts, i, j) && RowEntry(CategoryName(ts[i]), ts[i].rows[j]) == Some(e) {
      var i, j :| KeptRow(ts, i, j) && RowEntry(CategoryName(ts[i]), ts[i].rows[j]) == Some(e);
      EntriesComplete(ts, i, j);
    }
  }

  // ---------------------------------------------------------------------------
  // What recording the entries builds

  /** One recorded entry adds its category and its label and keeps the rest. */
  lemma PutKeys(m: Specs, e: Entry)
    ensures forall c :: c in Put(m, e) <==> c in m || c == e.category
    ensures forall c, l :: c in Put(m, e) ==>
      (l in Put(m, e)[c] <==> (c in m && l in m[c]) || (c == e.category && l == e.name))
    ensures e.name in Put(m, e)[e.category]
  {
  }

  lemma {:induction false} BuildCategories(es: seq<Entry>)
    ensures forall c :: c in Build(es) <==> exists k :: 0 <= k < |es| && es[k].category == c
    decreases |es|
  {
    if es != [] {
      var init, e := es[..|es| - 1], es[|es| - 1];
      BuildCategories(init);
      var m := Build(init);
      assert Build(es) == Put(m, e);
      PutKeys(m, e);
      assert forall k :: 0 <= k < |init| ==> init[k] == es[k];
    }
  }

  lemma {:induction false} BuildLabels(es: seq<Entry>)
    ensures forall c, l :: c in Build(es) ==>
      (l in Build(es)[c] <==> exists k :: 0 <= k < |es| && es[k].category == c && es[k].name == l)
    decreases |es|
  {
    if es != [] {
      var init, e := es[..|es| - 1], es[|es| - 1];
      BuildLabels(init);
      BuildCategories(init);
      var m := Build(init);
      assert Build(es) == Put(m, e);
      PutKeys(m, e);
      assert forall k :: 0 <= k < |init| ==> init[k] == es[k];
    }
  }

  /** The categories of the built map are exactly the categories of the
      entries, and each category holds exactly the labels recorded under it;
      so no category is empty. */
  lemma BuildKeys(es: seq<Entry>)
    ensures forall c :: c in Build(es) <==> exists k :: 0 <= k < |es| && es[k].category == c
    ensures forall c, l :: c in Build(es) ==>
      (l in Build(es)[c] <==> exists k :: 0 <= k < |es| && es[k].category == c && es[k].name == l)
    ensures forall c :: c in Build(es) ==> Build(es)[c] != map[]
  {
    BuildCategories(es);
    BuildLabels(es);
    forall c | c in Build(es) ensures Build(es)[c] != map[] {
      var k :| 0 <= k < |es| && es[k].category == c;
      assert es[k].name in Build(es)[c];
    }
  }

  /** The value recorded last for a category and label is the one the built map holds. */
  lemma {:induction false} BuildLastWins(es: seq<Entry>, k: nat)
    requires k < |es|
    requires forall k' :: k < k' < |es| ==> es[k'].category != es[k].category || es[k'].name != es[k].name
    ensures es[k].category in Build(es) && es[k].name in Build(es)[es[k].category]
    ensures Build(es)[es[k].category][es[k].name] == es[k].value
    decreases |es|
  {
    var init := es[..|es| - 1];
    if k < |init| {
      assert forall k' :: k < k' < |init| ==> init[k'] == es[k'];
      BuildLastWins(init, k);
      assert init[k] == es[k];
    }
  }

  lemma MergeEmpty(a: Specs)
    ensures Merge(a, map[]) == a
  {
    var m := Merge(a, map[]);
    assert m.Keys == a.Keys;
    forall c | c in a ensures m[c] == a[c] {
      assert a[c] + map[] == a[c];
    }
  }

  lemma LabelsPut(m: Specs, e: Entry, c: string)
    ensures Labels(Put(m, e), c) == if c == e.category then Labels(m, c)[e.name := e.value] else Labels(m, c)
  {
  }

  lemma LabelsMerge(a: Specs, b: Specs, c: string)
    ensures Labels(Merge(a, b), c) == Labels(a, c) + Labels(b, c)
  {
  }

  lemma UpdateUnion(x: map<string, string>, y: map<string, string>, k: string, v: string)
    ensures (x + y)[k := v] == x + y[k := v]
  {
  }

  lemma PutMergeAt(a: Specs, b: Specs, e: Entry, c: string)
    requires c in Put(Merge(a, b), e) && c in Merge(a, Put(b, e))
    ensures Put(Merge(a, b), e)[c] == Merge(a, Put(b, e))[c]
  {
    LabelsPut(Merge(a, b), e, c);
    LabelsMerge(a, b, c);
    LabelsMerge(a, Put(b, e), c);
    LabelsPut(b, e, c);
    UpdateUnion(Labels(a, c), Labels(b, c), e.name, e.value);
  }

  /** Recording an entry after a merge is recording it in the merge's right-hand side. */
  lemma PutMerge(a: Specs, b: Specs, e: Entry)
    ensures Put(Merge(a, b), e) == Merge(a, Put(b, e))
  {
    assert Put(Merge(a, b), e).Keys == Merge(a, Put(b, e)).Keys;
    forall c | c in Put(Merge(a, b), e) ensures Put(Merge(a, b), e)[c] == Merge(a, Put(b, e))[c] {
      PutMergeAt(a, b, e, c);
    }
  }

  /** Recording two runs of entries one after the other merges what each
      records alone, the later run's labels winning. */
  lemma {:induction false} BuildAppend(es: seq<Entry>, fs: seq<Entry>)
    ensures Build(es + fs) == Merge(Build(es), Build(fs))
    decreases |fs|
  {
    if fs == [] {
      assert es + fs == es;
      MergeEmpty(Build(es));
    } else {
      var f0 := fs[..|fs| - 1];
      assert (es + fs)[..|es + fs| - 1] == es + f0;
      assert (es + fs)[|es + fs| - 1] == fs[|fs| - 1];
      BuildAppend(es, f0);
      PutMerge(Build(es), Build(f0), fs[|fs| - 1]);
    }
  }

  /** Table bodies that map to the same category merge, and a later label
      overwrites an earlier equal one. */
  lemma SpecsOfAppend(ts: seq<TableBody>, us: seq<TableBody>)
    ensures SpecsOf(ts + us) == Merge(SpecsOf(ts), SpecsOf(us))
  {
    EntriesAppend(ts, us);
    BuildAppend(Entries(ts), Entries(us));
  }

  /** A category is in the result exactly when some specification block
      named so records a row, and it is then not empty. */
  lemma SpecsOfCategories(ts: seq<TableBody>, c: string)
    ensures c in SpecsOf(ts) <==> exists i, j :: KeptRow(ts, i, j) && CategoryName(ts[i]) == c
    ensures c in SpecsOf(ts) ==> SpecsOf(ts)[c] != map[]
  {
    var es := Entries(ts);
    BuildKeys(es);
    if c in SpecsOf(ts) {
      var k :| 0 <= k < |es| && es[k].category == c;
      EntriesSound(ts, es[k]);
    }
    if exists i, j :: KeptRow(ts, i, j) && CategoryName(ts[i]) == c {
      var i, j :| KeptRow(ts, i, j) && CategoryName(ts[i]) == c;
      EntriesComplete(ts, i, j);
      var k :| 0 <= k < |es| && es[k] == RowEntry(c, ts[i].rows[j]).value;
    }
  }

  lemma SpecsOfLabelsSound(ts: seq<TableBody>, c: string, l: string)
    requires c in SpecsOf(ts) && l in SpecsOf(ts)[c]
    ensures exists i, j ::
      KeptRow(ts, i, j) && CategoryName(ts[i]) == c && CleanText(Some(ts[i].rows[j].heading)) == Some(l)
  {
    var es := Entries(ts);
    BuildLabels(es);
    var k :| 0 <= k < |es| && es[k].category == c && es[k].name == l;
    EntriesSound(ts, es[k]);
    var i, j :| KeptRow(ts, i, j) && RowEntry(CategoryName(ts[i]), ts[i].rows[j]) == Some(es[k]);
    assert CategoryName(ts[i]) == c;
  }

  lemma SpecsOfLabelsComplete(ts: seq<TableBody>, i: nat, j: nat)
    requires KeptRow(ts, i, j)
    ensures var c := CategoryName(ts[i]);
      c in SpecsOf(ts) && CleanText(Some(ts[i].rows[j].heading)).value in SpecsOf(ts)[c]
  {
    var es := Entries(ts);
    var e := RowEntry(CategoryName(ts[i]), ts[i].rows[j]).value;
    EntriesComplete(ts, i, j);
    var k :| 0 <= k < |es| && es[k] == e;
    BuildCategories(es);
    BuildLabels(es);
  }

  /** A label is in a category of the result exactly when some row of a
      specification block named so records it as its cleaned heading. */
  lemma SpecsOfLabels(ts: seq<TableBody>, c: string, l: string)
    ensures (c in SpecsOf(ts) && l in SpecsOf(ts)[c]) <==>
      exists i, j :: KeptRow(ts, i, j) && CategoryName(ts[i]) == c
        && CleanText(Some(ts[i].rows[j].heading)) == Some(l)
  {
    if c in SpecsOf(ts) && l in SpecsOf(ts)[c] {
      SpecsOfLabelsSound(ts, c, l);
    }
    if exists i, j :: KeptRow(ts, i, j) && CategoryName(ts[i]) == c
        && CleanText(Some(ts[i].rows[j].heading)) == Some(l) {
      var i, j :| KeptRow(ts, i, j) && CategoryName(ts[i]) == c
        && CleanText(Some(ts[i].rows[j].heading)) == Some(l);
      SpecsOfLabelsComplete(ts, i, j);
    }
  }

  // ---------------------------------------------------------------------------
  // The extractor

  /** `acc` holds every category of `b` with the same labels and maps every
      other key to an empty map. */
  ghost predicate Covers(acc: Specs, b: Specs)
  {
    && (forall c :: c in b ==> c in acc && acc[c] == b[c])
    && (forall c :: c in acc && c !in b ==> acc[c] == map[])
  }

  lemma BuildSnoc(es: seq<Entry>, e: Entry)
    ensures Build(es + [e]) == Put(Build(es), e)
  {
    assert (es + [e])[..|es|] == es;
  }

  lemma CoversPut(acc: Specs, b: Specs, e: Entry)
    requires Covers(acc, b) && e.category in acc
    ensures Covers(acc[e.category := acc[e.category][e.name := e.value]], Put(b, e))
  {
  }

  /** The pruning loop: every category that ended up empty is deleted. */
  method PruneEmpty(m: Specs) returns (r: Specs)
    ensures forall c :: c in r <==> c in m && m[c] != map[]
    ensures forall c :: c in r ==> r[c] == m[c]
  {
    r := m;
    var keys := m.Keys;
    while keys != {}
      invariant keys <= m.Keys
      invariant forall c :: c in r <==> c in m && (c in keys || m[c] != map[])
      invariant forall c :: c in r ==> r[c] == m[c]
      decreases keys
    {
      var c :| c in keys;
      if |r[c]| == 0 {
        r := r - {c};
      }
      keys := keys - {c};
    }
  }

  lemma RowEntriesSnoc(name: string, rows: seq<Row>, j: nat)
    requires j < |rows|
    ensures RowEntry(name, rows[j]).Some? ==>
      RowEntries(name, rows[..j + 1]) == RowEntries(name, rows[..j]) + [RowEntry(name, rows[j]).value]
    ensures RowEntry(name, rows[j]).None? ==> RowEntries(name, rows[..j + 1]) == RowEntries(name, rows[..j])
  {
    assert rows[..j + 1][..j] == rows[..j];
  }

  lemma EntriesSnoc(ts: seq<TableBody>, i: nat)
    requires i < |ts|
    ensures IsSpecBlock(ts[i]) ==>
      Entries(ts[..i + 1]) == Entries(ts[..i]) + RowEntries(CategoryName(ts[i]), ts[i].rows)
    ensures !IsSpecBlock(ts[i]) ==> Entries(ts[..i + 1]) == Entries(ts[..i])
  {
    assert ts[..i + 1][..i] == ts[..i];
  }

  lemma RecordStep(acc: Specs, name: string, rows: seq<Row>, j: nat, done: seq<Entry>)
    requires j < |rows| && name in acc && Covers(acc, Build(done + RowEntries(name, rows[..j])))
    ensures RowEntry(name, rows[j]).None? ==> Covers(acc, Build(done + RowEntries(name, rows[..j + 1])))
    ensures RowEntry(name, rows[j]).Some? ==>
      var e := RowEntry(name, rows[j]).value;
      Covers(acc[name := acc[name][e.name := e.value]], Build(done + RowEntries(name, rows[..j + 1])))
  {
    var before := done + RowEntries(name, rows[..j]);
    RowEntriesSnoc(name, rows, j);
    if RowEntry(name, rows[j]).Some? {
      var e := RowEntry(name, rows[j]).value;
      assert done + RowEntries(name, rows[..j + 1]) == before + [e];
      BuildSnoc(before, e);
      CoversPut(acc, Build(before), e);
    }
  }

  /** The loop over one specification block's rows: every row whose
      cleaned label and value are both truthy is recorded under `name`. */
  method RecordRows(acc0: Specs, name: string, rows: seq<Row>, ghost done: seq<Entry>) returns (acc: Specs)
    requires name in acc0 && Covers(acc0, Build(done))
    ensures name in acc && Covers(acc, Build(done + RowEntries(name, rows)))
  {
    acc := acc0;
    var j := 0;
    assert done + RowEntries(name, rows[..0]) == done;
    while j < |rows|
      invariant 0 <= j <= |rows|
      invariant name in acc
      invariant Covers(acc, Build(done + RowEntries(name, rows[..j])))
    {
      var row := rows[j];
      var specName, specValue := CleanText(Some(row.heading)), CleanText(Some(row.text));
      RecordStep(acc, name, rows, j, done);
      if Truthy(specName) && Truthy(specValue) {
        acc := acc[name := acc[name][specName.value := specValue.value]];
      }
      j := j + 1;
    }
    assert rows[..|rows|] == rows;
  }

  /** The loop over the table bodies: each specification block gets its
      category, created empty when missing, and its rows recorded. */
  method RecordBlocks(ts: seq<TableBody>) returns (acc: Specs)
    ensures Covers(acc, SpecsOf(ts))
  {
    acc := map[];
    var i := 0;
    while i < |ts|
      invariant 0 <= i <= |ts|
      invariant Covers(acc, Build(Entries(ts[..i])))
    {
      var t := ts[i];
      EntriesSnoc(ts, i);
      if IsSpecBlock(t) {
        var name := CategoryName(t);
        if name !in acc {
          acc := acc[name := map[]];
        }
        ghost var done := Entries(ts[..i]);
        assert Covers(acc, Build(done));
        acc := RecordRows(acc, name, t.rows, done);
      }
      i := i + 1;
    }
    assert ts[..|ts|] == ts;
  }

  /** `extractSpecsFromHTML`: the metadata fields, then every specification
      block's rows recorded under its category, then the empty categories pruned. */
  method ExtractSpecs(doc: Document) returns (ex: Extraction)
    ensures ex == ExtractionOf(doc)
    ensures forall c :: c in ex.specs ==> ex.specs[c] != map[]
  {
    var metadata: map<string, string> := map[];
    if doc.title != [] {
      metadata := metadata[PhoneNameKey := CleanText(Some(doc.title)).value];
    }
    if Truthy(doc.releaseCalendar) {
      metadata := metadata[ReleaseDateKey := CleanText(doc.releaseCalendar).value];
    }
    if doc.priceBlock != [] {
      metadata := metadata[PriceKey := CleanText(Some(doc.priceBlock)).value];
    }
    var acc := RecordBlocks(doc.tableBodies);
    BuildKeys(Entries(doc.tableBodies));
    var specs := PruneEmpty(acc);
    assert specs == SpecsOf(doc.tableBodies);
    ex := Extraction(metadata, specs);
  }
}
