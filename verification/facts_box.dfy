/** The facts box of a listing's detail page (`_extract_bolig_facts_box` in
    scraper.py). Each fact row is recognised by the label its text contains,
    the labels being tried in a fixed order, and the text of its `<strong>`
    child is parsed into one or two fields. A later row of the same kind
    overwrites an earlier one; a row that fails to parse raises, and the
    exception leaves the whole extraction.
 */
module FactsBox {
  import opened Results
  import opened Text

  /** What the parser can see of the fourth child node of a row, which holds
      the energy label in its second CSS class. */
  datatype LabelNode = NoFourthChild | NoClassAttribute | WithClasses(classes: seq<string>)

  /** One `case-facts__box-inner-wrap` div: its whole text, the text of its
      `<strong>` child and its fourth child node. */
  datatype FactRow = FactRow(text: string, strong: string, labelNode: LabelNode)

  /** The six facts-box fields; `None` is the JSON null a missing fact keeps. */
  datatype Facts = Facts(
    size: Option<int>,
    basementSize: Option<int>,
    rooms: Option<int>,
    yearBuilt: Option<int>,
    yearRebuilt: Option<int>,
    energyLabel: Option<string>)

  /** The dictionary the extraction starts from: every field null. */
  const NoFacts: Facts := Facts(None, None, None, None, None, None)

  /** Which branch of the `if`/`elif` chain a row takes. */
  datatype Kind = Size | BasementSize | Rooms | Built | EnergyLabel | Other

  const SizeLabel: string := "Boligareal"
  const BasementLabel: string := "Kælderstørrelse"
  const RoomsLabel: string := "Stue/Værelser"
  const BuiltLabel: string := "Bygget/Ombygget"
  const EnergyText: string := "Energimærke"

  /** The first label, in the source's order, that the row text contains. */
  function Classify(text: string): Kind
  {
    if Contains(text, SizeLabel) then Size
    else if Contains(text, BasementLabel) then BasementSize
    else if Contains(text, RoomsLabel) then Rooms
    else if Contains(text, BuiltLabel) then Built
    else if Contains(text, EnergyText) then EnergyLabel
    else Other
  }

  /** The labels of the chain, in the source's order, and their kinds. */
  const Labels: seq<string> := [SizeLabel, BasementLabel, RoomsLabel, BuiltLabel, EnergyText]
  const LabelKinds: seq<Kind> := [Size, BasementSize, Rooms, Built, EnergyLabel]

  /** A row is `Other` exactly when it contains none of the labels; otherwise
      its kind is that of the first label it contains. */
  lemma ClassifyFirst(text: string)
    ensures Classify(text) == Other <==> forall i :: 0 <= i < |Labels| ==> !Contains(text, Labels[i])
    ensures Classify(text) != Other ==>
              exists i :: && 0 <= i < |Labels| && Classify(text) == LabelKinds[i]
                          && Contains(text, Labels[i])
                          && forall j :: 0 <= j < i ==> !Contains(text, Labels[j])
  {
    var k := Classify(text);
    if k == Size {
      assert Classify(text) == LabelKinds[0] && Contains(text, Labels[0]);
    } else if k == BasementSize {
      assert Classify(text) == LabelKinds[1] && Contains(text, Labels[1]);
    } else if k == Rooms {
      assert Classify(text) == LabelKinds[2] && Contains(text, Labels[2]);
    } else if k == Built {
      assert Classify(text) == LabelKinds[3] && Contains(text, Labels[3]);
    } else if k == EnergyLabel {
      assert Classify(text) == LabelKinds[4] && Contains(text, Labels[4]);
    }
  }

  /** `g` agrees with `f` on every field that no row of a kind in `ks` sets. */
  predicate Keeps(f: Facts, g: Facts, ks: set<Kind>) {
    && (Size !in ks ==> g.size == f.size)
    && (BasementSize !in ks ==> g.basementSize == f.basementSize)
    && (Rooms !in ks ==> g.rooms == f.rooms)
    && (Built !in ks ==> g.yearBuilt == f.yearBuilt && g.yearRebuilt == f.yearRebuilt)
    && (EnergyLabel !in ks ==> g.energyLabel == f.energyLabel)
  }

  /** `int(strong.split(" ")[0])`: the number before the unit. */
  function LeadingNumber(strong: string): (r: Result<int>)
    ensures r.Err? ==> r.error == ValueError
  {
    PyInt(Split(strong, ' ')[0])
  }

  /** `node.get("class")[1].split("-")[2]`: the third `-`-separated part of
      the node's second class. A missing node or class is an IndexError; a
      node without a class attribute gives `None`, whose subscript is a
      TypeError. */
  function EnergyLabelOf(node: LabelNode): (r: Result<string>)
    ensures r.Ok? ==> '-' !in r.value
    ensures node.NoClassAttribute? <==> r == Err(TypeError)
    ensures r.Err? && !node.NoClassAttribute? ==> r.error == IndexError
    ensures r.Ok? <==> node.WithClasses? && |node.classes| >= 2 && |Split(node.classes[1], '-')| >= 3
    ensures r.Ok? ==> r.value == Split(node.classes[1], '-')[2]
  {
    match node
    case NoFourthChild => Err(IndexError)
    case NoClassAttribute => Err(TypeError)
    case WithClasses(classes) =>
      if |classes| < 2 then Err(IndexError)
      else
        var parts := Split(classes[1], '-');
        if |parts| < 3 then Err(IndexError) else Ok(parts[2])
  }

  /** `int(a) + int(b)` of a "<a>/<b>" value; a value without `/` is an
      IndexError once its first part has parsed. */
  function RoomCount(strong: string): (r: Result<int>)
    ensures r.Err? ==> r.error == ValueError || r.error == IndexError
    ensures r.Ok? <==> && |Split(strong, '/')| >= 2
                       && PyInt(Split(strong, '/')[0]).Ok?
                       && PyInt(Split(strong, '/')[1]).Ok?
    ensures |Split(strong, '/')| < 2 && PyInt(Split(strong, '/')[0]).Ok? ==> r == Err(IndexError)
    ensures r.Ok? ==> r.value == PyInt(Split(strong, '/')[0]).value + PyInt(Split(strong, '/')[1]).value
  {
    var parts := Split(strong, '/');
    var living :- PyInt(parts[0]);
    if |parts| < 2 then Err(IndexError)
    else
      var rooms :- PyInt(parts[1]);
      Ok(living + rooms)
  }

  /** The building year and, when the value holds a `/`, the rebuilding year. */
  function BuildYears(strong: string): (r: Result<(int, Option<int>)>)
    ensures r.Err? ==> r.error == ValueError
    ensures r.Ok? <==> && PyInt(Split(strong, '/')[0]).Ok?
                       && (|Split(strong, '/')| > 1 ==> PyInt(Split(strong, '/')[1]).Ok?)
    ensures r.Ok? ==> r.value.0 == PyInt(Split(strong, '/')[0]).value
    ensures r.Ok? ==> (r.value.1.Some? <==> |Split(strong, '/')| > 1)
    ensures r.Ok? && r.value.1.Some? ==> r.value.1.value == PyInt(Split(strong, '/')[1]).value
  {
    var parts := Split(strong, '/');
    var built :- PyInt(parts[0]);
    if |parts| > 1 then
      var rebuilt :- PyInt(parts[1]);
      Ok((built, Some(rebuilt)))
    else
      Ok((built, None))
  }

  /** One pass of the loop body: the row's branch parses its value into its
      own fields and leaves every other field alone; a row with no known label
      changes nothing. Only `int()` (ValueError), a missing part
      (IndexError) or a missing class attribute (TypeError) can fail. */
  function ApplyFact(f: Facts, row: FactRow): (r: Result<Facts>)
    ensures r.Ok? ==> Keeps(f, r.value, {Classify(row.text)})
    ensures Classify(row.text) == Other ==> r == Ok(f)
    ensures r.Err? ==> r.error == ValueError || r.error == IndexError || r.error == TypeError
    ensures r.Err? ==> r.error == TypeError ==> Classify(row.text) == EnergyLabel
    ensures r.Ok? && Classify(row.text) == Size ==> r.value.size.Some?
    ensures r.Ok? && Classify(row.text) == BasementSize ==> r.value.basementSize.Some?
    ensures r.Ok? && Classify(row.text) == Rooms ==> r.value.rooms.Some?
    ensures r.Ok? && Classify(row.text) == Built ==> r.value.yearBuilt.Some?
    ensures r.Ok? && Classify(row.text) == EnergyLabel ==> r.value.energyLabel.Some?
  {
    ApplyKind(f, Classify(row.text), row)
  }

  /** The branch for `kind` of the loop body. */
  function ApplyKind(f: Facts, kind: Kind, row: FactRow): (r: Result<Facts>)
    ensures r.Ok? ==> Keeps(f, r.value, {kind})
    ensures kind == Other ==> r == Ok(f)
    ensures r.Err? ==> r.error == ValueError || r.error == IndexError || r.error == TypeError
    ensures r.Err? ==> r.error == TypeError ==> kind == EnergyLabel
    ensures r.Ok? && kind == Size ==> r.value.size.Some?
    ensures r.Ok? && kind == BasementSize ==> r.value.basementSize.Some?
    ensures r.Ok? && kind == Rooms ==> r.value.rooms.Some?
    ensures r.Ok? && kind == Built ==> r.value.yearBuilt.Some?
    ensures r.Ok? && kind == EnergyLabel ==> r.value.energyLabel.Some?
    ensures kind == Size ==> && (r.Ok? <==> LeadingNumber(row.strong).Ok?)
                             && (r.Ok? ==> r.value.size == Some(LeadingNumber(row.strong).value))
    ensures kind == BasementSize ==> && (r.Ok? <==> LeadingNumber(row.strong).Ok?)
                                     && (r.Ok? ==> r.value.basementSize == Some(LeadingNumber(row.strong).value))
    ensures kind == Rooms ==> && (r.Ok? <==> RoomCount(row.strong).Ok?)
                              && (r.Ok? ==> r.value.rooms == Some(RoomCount(row.strong).value))
    ensures kind == Built ==> && (r.Ok? <==> BuildYears(row.strong).Ok?)
                              && (r.Ok? ==> r.value.yearBuilt == Some(BuildYears(row.strong).value.0))
    ensures kind == Built && r.Ok? && BuildYears(row.strong).value.1.Some? ==>
              r.value.yearRebuilt == BuildYears(row.strong).value.1
    ensures kind == Built && r.Ok? && BuildYears(row.strong).value.1.None? ==>
              r.value.yearRebuilt == f.yearRebuilt
    ensures kind == EnergyLabel ==> && (r.Ok? <==> EnergyLabelOf(row.labelNode).Ok?)
                                    && (r.Ok? ==> r.value.energyLabel == Some(EnergyLabelOf(row.labelNode).value))
  {
    match kind
    case Size =>
      var n :- LeadingNumber(row.strong);
      Ok(f.(size := Some(n)))
    case BasementSize =>
      var n :- LeadingNumber(row.strong);
      Ok(f.(basementSize := Some(n)))
    case Rooms =>
      var n :- RoomCount(row.strong);
      Ok(f.(rooms := Some(n)))
    case Built =>
      var years :- BuildYears(row.strong);
      Ok(f.(yearBuilt := Some(years.0), yearRebuilt := if years.1.Some? then years.1 else f.yearRebuilt))
    case EnergyLabel =>
      var mark :- EnergyLabelOf(row.labelNode);
      Ok(f.(energyLabel := Some(mark)))
    case Other => Ok(f)
  }

  /** Whether a row parses does not depend on the facts gathered before it. */
  lemma ApplyFactFailure(f: Facts, g: Facts, row: FactRow)
    ensures ApplyFact(f, row).Err? <==> ApplyFact(g, row).Err?
    ensures ApplyFact(f, row).Err? ==> ApplyFact(f, row).error == ApplyFact(g, row).error
  {
    match Classify(row.text)
    case Size =>
    case BasementSize =>
    case Rooms =>
    case Built =>
    case EnergyLabel =>
    case Other =>
  }

  /** The row raises when the loop body reaches it. */
  predicate Fails(row: FactRow) {
    ApplyFact(NoFacts, row).Err?
  }

  /** The set of branches the rows take. */
  function KindsOf(rows: seq<FactRow>): set<Kind>
  {
    set i | 0 <= i < |rows| :: Classify(rows[i].text)
  }

  /** Row `i` is the first row that raises. */
  predicate FirstFailing(rows: seq<FactRow>, i: int) {
    && 0 <= i < |rows|
    && Fails(rows[i])
    && forall j :: 0 <= j < i ==> !Fails(rows[j])
  }

  /** The loop over the rows, starting from `f`. It succeeds exactly when
      every row parses, and then fields of kinds no row has keep their
      starting value; otherwise the first failing row's exception is the
      result. */
  function FoldFacts(f: Facts, rows: seq<FactRow>): (r: Result<Facts>)
    decreases |rows|
    ensures r.Ok? <==> forall i :: 0 <= i < |rows| ==> !Fails(rows[i])
    ensures r.Ok? ==> Keeps(f, r.value, KindsOf(rows))
    ensures r.Err? ==> exists i :: FirstFailing(rows, i) && r.error == ApplyFact(NoFacts, rows[i]).error
  {
    if |rows| == 0 then Ok(f)
    else
      ApplyFactFailure(f, NoFacts, rows[0]);
      match ApplyFact(f, rows[0])
      case Err(e) =>
        assert FirstFailing(rows, 0);
        Err(e)
      case Ok(g) =>
        var r := FoldFacts(g, rows[1..]);
        TailRows(rows);
        assert r.Ok? ==> Keeps(f, r.value, KindsOf(rows)) by {
          if r.Ok? {
            KindsOfCons(rows);
          }
        }
        assert r.Err? ==> exists i :: FirstFailing(rows, i) && r.error == ApplyFact(NoFacts, rows[i]).error by {
          if r.Err? {
            var i :| FirstFailing(rows[1..], i) && r.error == ApplyFact(NoFacts, rows[1..][i]).error;
            FirstFailingCons(rows, i);
          }
        }
        r
  }

  lemma TailRows(rows: seq<FactRow>)
    requires |rows| > 0
    ensures forall i :: 0 < i < |rows| ==> rows[i] == rows[1..][i - 1]
  {
  }

  lemma KindsOfCons(rows: seq<FactRow>)
    requires |rows| > 0
    ensures KindsOf(rows) == {Classify(rows[0].text)} + KindsOf(rows[1..])
  {
    forall k | k in KindsOf(rows) ensures k in {Classify(rows[0].text)} + KindsOf(rows[1..]) {
      var i :| 0 <= i < |rows| && Classify(rows[i].text) == k;
      if i > 0 { assert Classify(rows[1..][i - 1].text) == k; }
    }
  }

  lemma FirstFailingCons(rows: seq<FactRow>, i: int)
    requires |rows| > 0 && !Fails(rows[0])
    requires FirstFailing(rows[1..], i)
    ensures FirstFailing(rows, i + 1)
  {
    TailRows(rows);
  }

  /** `_extract_bolig_facts_box`: the loop from the all-null dictionary. A
      fact absent from the page stays null. */
  function ExtractFactsBox(rows: seq<FactRow>): (r: Result<Facts>)
    ensures r.Ok? <==> forall i :: 0 <= i < |rows| ==> !Fails(rows[i])
    ensures r.Ok? ==> Keeps(NoFacts, r.value, KindsOf(rows))
  {
    FoldFacts(NoFacts, rows)
  }

  /** Rows are processed in page order: one more row is one more step of the
      loop on the facts gathered so far. In particular the last row of a
      kind decides that kind's fields. */
  lemma {:induction false} FoldFactsSnoc(f: Facts, rows: seq<FactRow>, row: FactRow)
    decreases |rows|
    ensures FoldFacts(f, rows + [row]) ==
              match FoldFacts(f, rows)
              case Ok(g) => ApplyFact(g, row)
              case Err(e) => Err(e)
  {
    if |rows| > 0 {
      assert (rows + [row])[1..] == rows[1..] + [row];
      match ApplyFact(f, rows[0])
      case Ok(g) => FoldFactsSnoc(g, rows[1..], row);
      case Err(_) =>
    }
  }

  // ---------------------------------------------------------------------------
  // What each branch reads

  /** A living-area value "<n> m²" gives size n. */
  lemma SizeOfArea(f: Facts, row: FactRow, n: nat, unit: string)
    requires Classify(row.text) == Size
    requires row.strong == Decimal(n) + " " + unit
    ensures ApplyFact(f, row) == Ok(f.(size := Some(n)))
  {
    LeadingNumberOf(n, unit);
  }

  /** A basement value "<n> m²" gives basement size n. */
  lemma BasementOfArea(f: Facts, row: FactRow, n: nat, unit: string)
    requires Classify(row.text) == BasementSize
    requires row.strong == Decimal(n) + " " + unit
    ensures ApplyFact(f, row) == Ok(f.(basementSize := Some(n)))
  {
    LeadingNumberOf(n, unit);
  }

  /** The number is read from the text before the first space, whatever
      follows; a text with no space is read whole. So " 12 m²" reads the
      empty first piece and fails. */
  lemma LeadingNumberOfWord(w: string, rest: string)
    requires ' ' !in w
    ensures LeadingNumber(w + " " + rest) == PyInt(w)
  {
    assert w + " " + rest == w + [' '] + rest;
    SplitHead(w, ' ', rest);
  }

  lemma LeadingNumberOfSpaceless(s: string)
    requires ' ' !in s
    ensures LeadingNumber(s) == PyInt(s)
  {
    SplitNoSep(s, ' ');
  }

  lemma LeadingNumberOf(n: nat, unit: string)
    ensures LeadingNumber(Decimal(n) + " " + unit) == Ok(n)
  {
    DecimalRoundTrip(n);
    DigitsAvoid(Decimal(n), ' ');
    SplitHead(Decimal(n), ' ', unit);
    PyIntNatural(n);
  }

  /** "<a>/<b>" living rooms and rooms gives their sum as the room count. */
  lemma RoomsOfPair(f: Facts, row: FactRow, a: nat, b: nat)
    requires Classify(row.text) == Rooms
    requires row.strong == Decimal(a) + "/" + Decimal(b)
    ensures ApplyFact(f, row) == Ok(f.(rooms := Some(a + b)))
  {
    RoomCountOfPair(a, b);
  }

  lemma RoomCountOfPair(a: nat, b: nat)
    ensures RoomCount(Decimal(a) + "/" + Decimal(b)) == Ok(a + b)
  {
    SplitPair(a, b);
    PyIntNatural(a);
    PyIntNatural(b);
    RoomCountOfParts(Decimal(a) + "/" + Decimal(b), a, b);
  }

  lemma RoomCountOfParts(strong: string, a: int, b: int)
    requires |Split(strong, '/')| >= 2
    requires PyInt(Split(strong, '/')[0]) == Ok(a)
    requires PyInt(Split(strong, '/')[1]) == Ok(b)
    ensures RoomCount(strong) == Ok(a + b)
  {
  }

  /** "<y>/<z>" sets both the building and the rebuilding year. */
  lemma BuiltOfPair(f: Facts, row: FactRow, y: nat, z: nat)
    requires Classify(row.text) == Built
    requires row.strong == Decimal(y) + "/" + Decimal(z)
    ensures ApplyFact(f, row) == Ok(f.(yearBuilt := Some(y), yearRebuilt := Some(z)))
  {
    BuildYearsOfPair(y, z);
  }

  lemma BuildYearsOfPair(y: nat, z: nat)
    ensures BuildYears(Decimal(y) + "/" + Decimal(z)) == Ok((y as int, Some(z as int)))
  {
    SplitPair(y, z);
    PyIntNatural(y);
    PyIntNatural(z);
  }

  /** A lone year sets the building year and leaves the rebuilding year as
      it was. */
  lemma BuiltOfYear(f: Facts, row: FactRow, y: nat)
    requires Classify(row.text) == Built
    requires row.strong == Decimal(y)
    ensures ApplyFact(f, row) == Ok(f.(yearBuilt := Some(y)))
  {
    BuildYearsOfYear(y);
  }

  /** A facts box whose only row is a lone building year: the year is set and
      the rebuilding year stays null. */
  lemma BuiltYearOnly(row: FactRow, y: nat)
    requires Classify(row.text) == Built
    requires row.strong == Decimal(y)
    ensures ExtractFactsBox([row]) == Ok(NoFacts.(yearBuilt := Some(y)))
  {
    BuiltOfYear(NoFacts, row, y);
    FoldFactsSnoc(NoFacts, [], row);
    assert [] + [row] == [row];
  }

  lemma BuildYearsOfYear(y: nat)
    ensures BuildYears(Decimal(y)) == Ok((y as int, None))
  {
    DecimalRoundTrip(y);
    DigitsAvoid(Decimal(y), '/');
    SplitNoSep(Decimal(y), '/');
    PyIntNatural(y);
  }

  lemma SplitPair(a: nat, b: nat)
    ensures Split(Decimal(a) + "/" + Decimal(b), '/') == [Decimal(a), Decimal(b)]
  {
    DecimalRoundTrip(a);
    DecimalRoundTrip(b);
    DigitsAvoid(Decimal(a), '/');
    DigitsAvoid(Decimal(b), '/');
    SplitHead(Decimal(a), '/', Decimal(b));
    SplitNoSep(Decimal(b), '/');
  }

  /** A second class "<p>-<q>-<grade>" (parts free of `-`) gives the grade as
      the energy label. */
  lemma EnergyOfClass(first: string, p: string, q: string, grade: string)
    requires '-' !in p && '-' !in q && '-' !in grade
    ensures EnergyLabelOf(WithClasses([first, p + "-" + q + "-" + grade])) == Ok(grade)
  {
    SplitHead(p, '-', q + "-" + grade);
    SplitHead(q, '-', grade);
    SplitNoSep(grade, '-');
    assert p + "-" + q + "-" + grade == p + ['-'] + (q + ['-'] + grade);
  }
}
