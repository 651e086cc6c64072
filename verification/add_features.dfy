/** The feature pass of add_new_features.py: the postal price table is re-keyed
    from the labels of the statistics file ("1000-1499 Kbh.K.",
    "2000 Frederiksberg") to single postal codes, and a record gains the
    average square-metre price of its postal code once.

    The table values come from a CSV file through pandas and float averaging;
    here they are opaque values of any type `V`, and the table arrives as its
    label/value pairs in file order.
 */
module Features {
  import opened Results
  import opened Text
  import Json

  /** A key of the price dictionary: a label of the statistics file, or a
      postal code put in its place. */
  datatype PostalKey = Label(text: string) | Code(code: int)

  /** What one label stands for: one postal code, or the inclusive range of
      codes `lo..hi` (empty when `hi < lo`). */
  datatype KeyPlan = Single(code: nat) | Span(lo: nat, hi: nat)

  /** How the loop of `_load_postal_avg_sqm_price` reads one label. A label
      with `-` must split into exactly two parts (tuple unpacking), and its
      start must hold a digit; an end without digits makes it a single code
      from the digits of the whole label. A label without `-` is the single
      code formed by its digits. */
  function PlanKey(key: string): (r: Result<KeyPlan>)
    ensures r.Err? ==> r.error == ValueError
    ensures '-' !in key ==> (r.Ok? <==> HasDigit(key))
    ensures '-' !in key && HasDigit(key) ==> r == Ok(Single(DigitsValue(KeepDigits(key))))
    ensures '-' in key ==> (r.Ok? <==> |Split(key, '-')| == 2 && HasDigit(Split(key, '-')[0]))
  {
    if '-' in key then
      var parts := Split(key, '-');
      if |parts| != 2 then Err(ValueError)
      else
        var lo :- DigitsOf(parts[0]);
        if !HasDigit(parts[1]) then
          PrefixDigit(key, parts[0]);
          var code :- DigitsOf(key);
          Ok(Single(code))
        else
          Ok(Span(lo, DigitsOf(parts[1]).value))
    else
      var code :- DigitsOf(key);
      Ok(Single(code))
  }

  /** The first piece of a split is a prefix, so its digits are the text's. */
  lemma PrefixDigit(key: string, first: string)
    requires first == Split(key, '-')[0]
    requires HasDigit(first)
    ensures HasDigit(key)
  {
    SplitFirst(key, '-');
    var k :| 0 <= k < |first| && IsDigit(first[k]);
    assert key[k] == first[k];
  }

  /** The postal code `c` is one of those a plan stands for. */
  predicate Covers(plan: KeyPlan, c: int) {
    match plan
    case Single(code) => c == code
    case Span(lo, hi) => lo <= c <= hi
  }

  /** A range label "A-B" whose end holds digits stands for every code from
      the digits of A to the digits of B. */
  lemma PlanOfRange(a: string, b: string)
    requires '-' !in a && '-' !in b
    requires HasDigit(a) && HasDigit(b)
    ensures PlanKey(a + "-" + b) ==
              Ok(Span(DigitsValue(KeepDigits(a)), DigitsValue(KeepDigits(b))))
  {
    var key := a + "-" + b;
    SplitHead(a, '-', b);
    SplitNoSep(b, '-');
    assert key == a + ['-'] + b;
    assert key[|a|] == '-';
  }

  /** A label "A-" followed by an end without digits stands for the single
      code formed by the digits of A. */
  lemma PlanOfOpenRange(a: string, b: string)
    requires '-' !in a && '-' !in b
    requires HasDigit(a) && !HasDigit(b)
    ensures PlanKey(a + "-" + b) == Ok(Single(DigitsValue(KeepDigits(a))))
  {
    var key := a + "-" + b;
    SplitHead(a, '-', b);
    SplitNoSep(b, '-');
    assert key == a + ['-'] + b;
    assert key[|a|] == '-';
    OpenPlan(key, a, b);
    OpenRangeDigits(a, b);
  }

  /** A label that splits into a start with digits and an end without is
      read as the single code its digits form. */
  lemma OpenPlan(key: string, a: string, b: string)
    requires '-' in key && Split(key, '-') == [a, b]
    requires HasDigit(a) && !HasDigit(b)
    ensures PlanKey(key) == Ok(Single(DigitsValue(KeepDigits(key))))
  {
    PrefixDigit(key, a);
  }

  /** The digits of "A-B" are those of A when B has none. */
  lemma OpenRangeDigits(a: string, b: string)
    requires !HasDigit(b)
    ensures KeepDigits(a + "-" + b) == KeepDigits(a)
  {
    KeepDigitsAppend(a + "-", b);
    KeepDigitsAppend(a, "-");
    assert KeepDigits("-") == "";
    KeepDigitsEmpty(b);
  }

  /** The value the expanded table holds for code `c`: that of the last label
      (in file order) whose plan covers `c`, since later assignments
      overwrite earlier ones. */
  function LastCover<V>(rows: seq<(string, V)>, c: int): Option<V>
  {
    if |rows| == 0 then None
    else
      var last := rows[|rows| - 1];
      var plan := PlanKey(last.0);
      if plan.Ok? && Covers(plan.value, c) then Some(last.1)
      else LastCover(rows[..|rows| - 1], c)
  }

  /** The dictionary keys of the file are distinct labels. */
  predicate DistinctLabels<V>(rows: seq<(string, V)>) {
    forall i, j :: 0 <= i < j < |rows| ==> rows[i].0 != rows[j].0
  }

  /** The table as `to_dict` returns it, keyed by label. */
  function LabelTable<V>(rows: seq<(string, V)>): (t: map<PostalKey, V>)
    requires DistinctLabels(rows)
    ensures forall k :: k in t <==> k.Label? && exists i :: 0 <= i < |rows| && rows[i].0 == k.text
    ensures forall i :: 0 <= i < |rows| ==> Label(rows[i].0) in t && t[Label(rows[i].0)] == rows[i].1
  {
    map i | 0 <= i < |rows| :: Label(rows[i].0) := rows[i].1
  }

  /** `postal_avg_sqm_price[postal_code] = value` for every code of the plan. */
  function AssignCodes<V>(t: map<PostalKey, V>, plan: KeyPlan, v: V): (t': map<PostalKey, V>)
    ensures forall k :: k in t' <==> k in t || (k.Code? && Covers(plan, k.code))
    ensures forall k :: k in t' ==> t'[k] == if k.Code? && Covers(plan, k.code) then v else t[k]
  {
    match plan
    case Single(code) => t[Code(code) := v]
    case Span(lo, hi) =>
      var codes := map c: int | lo <= c <= hi :: Code(c) := v;
      t + codes
  }

  /** The state of the re-keying loop before label `i`: the labels still to
      do keep their values, and the codes hold what the labels before `i`
      assigned. */
  ghost predicate Rekeyed<V>(rows: seq<(string, V)>, i: int, table: map<PostalKey, V>)
    requires 0 <= i <= |rows|
  {
    && (forall s :: Label(s) in table <==> exists j :: i <= j < |rows| && rows[j].0 == s)
    && (forall j :: i <= j < |rows| ==> Label(rows[j].0) in table && table[Label(rows[j].0)] == rows[j].1)
    && (forall c :: Code(c) in table <==> LastCover(rows[..i], c).Some?)
    && (forall c :: Code(c) in table ==> table[Code(c)] == LastCover(rows[..i], c).value)
  }

  /** The re-keying loop of `_load_postal_avg_sqm_price` (lines 62-80): each
      label is replaced by the codes it stands for. It fails with ValueError
      at the first label that cannot be read; otherwise no label survives and
      each code holds the value of the last label covering it. */
  method ExpandPostalKeys<V>(rows: seq<(string, V)>) returns (r: Result<map<PostalKey, V>>)
    requires DistinctLabels(rows)
    ensures r.Ok? <==> forall i :: 0 <= i < |rows| ==> PlanKey(rows[i].0).Ok?
    ensures r.Err? ==> r.error == ValueError
    ensures r.Ok? ==> forall k :: k in r.value ==> k.Code?
    ensures r.Ok? ==> forall c :: Code(c) in r.value <==> LastCover(rows, c).Some?
    ensures r.Ok? ==> forall c :: Code(c) in r.value ==> r.value[Code(c)] == LastCover(rows, c).value
  {
    var i, table := RekeyLabelsInOrder(rows);
    if i < |rows| {
      r := Err(PlanKey(rows[i].0).error);
    } else {
      RekeyEnd(rows, table);
      r := Ok(table);
    }
  }

  /** The loop itself: it stops at the first label that cannot be read, or
      after the last label. */
  method RekeyLabelsInOrder<V>(rows: seq<(string, V)>) returns (i: int, table: map<PostalKey, V>)
    requires DistinctLabels(rows)
    ensures 0 <= i <= |rows|
    ensures forall j :: 0 <= j < i ==> PlanKey(rows[j].0).Ok?
    ensures i < |rows| ==> PlanKey(rows[i].0).Err?
    ensures Rekeyed(rows, i, table)
  {
    table := StartTable(rows);
    i := 0;
    while i < |rows| && PlanKey(rows[i].0).Ok?
      invariant 0 <= i <= |rows|
      invariant forall j :: 0 <= j < i ==> PlanKey(rows[j].0).Ok?
      invariant Rekeyed(rows, i, table)
    {
      table := RekeyOne(rows, i, table);
      PlannedPrefix(rows, i);
      i := i + 1;
    }
  }

  /** The table as read from the file, before any label is done. */
  method StartTable<V>(rows: seq<(string, V)>) returns (table: map<PostalKey, V>)
    requires DistinctLabels(rows)
    ensures Rekeyed(rows, 0, table)
  {
    table := LabelTable(rows);
    RekeyStart(rows);
  }

  /** One pass of the loop: the label at `i` gives way to its codes. */
  method RekeyOne<V>(rows: seq<(string, V)>, i: int, table: map<PostalKey, V>) returns (next: map<PostalKey, V>)
    requires DistinctLabels(rows)
    requires 0 <= i < |rows| && Rekeyed(rows, i, table)
    requires PlanKey(rows[i].0).Ok?
    ensures Rekeyed(rows, i + 1, next)
  {
    var key := rows[i].0;
    next := AssignCodes(table, PlanKey(key).value, table[Label(key)]) - {Label(key)};
    RekeyStep(rows, i, table, next);
  }

  lemma PlannedPrefix<V>(rows: seq<(string, V)>, i: int)
    requires 0 <= i < |rows|
    requires forall j :: 0 <= j < i ==> PlanKey(rows[j].0).Ok?
    requires PlanKey(rows[i].0).Ok?
    ensures forall j :: 0 <= j < i + 1 ==> PlanKey(rows[j].0).Ok?
  {
  }

  lemma RekeyStart<V>(rows: seq<(string, V)>)
    requires DistinctLabels(rows)
    ensures Rekeyed(rows, 0, LabelTable(rows))
  {
    var t := LabelTable(rows);
    forall c ensures Code(c) !in t && LastCover(rows[..0], c).None? { }
  }

  /** When every label is done, only codes are left. */
  lemma RekeyEnd<V>(rows: seq<(string, V)>, table: map<PostalKey, V>)
    requires Rekeyed(rows, |rows|, table)
    ensures forall k :: k in table ==> k.Code?
    ensures forall c :: Code(c) in table <==> LastCover(rows, c).Some?
    ensures forall c :: Code(c) in table ==> table[Code(c)] == LastCover(rows, c).value
  {
    assert rows[..|rows|] == rows;
  }

  /** One pass of the loop keeps the loop state. */
  lemma RekeyStep<V>(rows: seq<(string, V)>, i: int, table: map<PostalKey, V>, next: map<PostalKey, V>)
    requires DistinctLabels(rows)
    requires 0 <= i < |rows| && Rekeyed(rows, i, table)
    requires PlanKey(rows[i].0).Ok?
    requires next == AssignCodes(table, PlanKey(rows[i].0).value, table[Label(rows[i].0)]) - {Label(rows[i].0)}
    ensures Rekeyed(rows, i + 1, next)
  {
    RekeyLabels(rows, i, table, next);
    RekeyCodes(rows, i, table, next);
  }

  lemma RekeyCodes<V>(rows: seq<(string, V)>, i: int, table: map<PostalKey, V>, next: map<PostalKey, V>)
    requires DistinctLabels(rows)
    requires 0 <= i < |rows| && Rekeyed(rows, i, table)
    requires PlanKey(rows[i].0).Ok?
    requires next == AssignCodes(table, PlanKey(rows[i].0).value, table[Label(rows[i].0)]) - {Label(rows[i].0)}
    ensures forall c :: Code(c) in next <==> LastCover(rows[..i + 1], c).Some?
    ensures forall c :: Code(c) in next ==> next[Code(c)] == LastCover(rows[..i + 1], c).value
  {
    LastCoverStep(rows, i, PlanKey(rows[i].0).value);
  }

  /** One more label: it decides the codes it covers. */
  lemma LastCoverStep<V>(rows: seq<(string, V)>, i: int, plan: KeyPlan)
    requires 0 <= i < |rows| && PlanKey(rows[i].0) == Ok(plan)
    ensures forall c :: LastCover(rows[..i + 1], c) ==
                          if Covers(plan, c) then Some(rows[i].1) else LastCover(rows[..i], c)
  {
    assert rows[..i + 1][..i] == rows[..i];
    assert rows[..i + 1][i] == rows[i];
    forall c ensures LastCover(rows[..i + 1], c) ==
                       if Covers(plan, c) then Some(rows[i].1) else LastCover(rows[..i], c) {
    }
  }

  lemma RekeyLabels<V>(rows: seq<(string, V)>, i: int, table: map<PostalKey, V>, next: map<PostalKey, V>)
    requires DistinctLabels(rows)
    requires 0 <= i < |rows| && Rekeyed(rows, i, table)
    requires PlanKey(rows[i].0).Ok?
    requires next == AssignCodes(table, PlanKey(rows[i].0).value, table[Label(rows[i].0)]) - {Label(rows[i].0)}
    ensures forall s :: Label(s) in next <==> exists j :: i + 1 <= j < |rows| && rows[j].0 == s
    ensures forall j :: i + 1 <= j < |rows| ==> Label(rows[j].0) in next && next[Label(rows[j].0)] == rows[j].1
  {
    forall s ensures Label(s) in next <==> exists j :: i + 1 <= j < |rows| && rows[j].0 == s {
      if Label(s) in next {
        var j :| i <= j < |rows| && rows[j].0 == s;
        assert j != i;
      }
    }
  }

  /** The key the feature is stored under. */
  const FeatureKey: string := "postal_avg_sqm_price"

  /** `postal_avg_sqm_price.get(postal_code, 0)`: the price of the record's
      postal code, 0 when the table has none. */
  function PriceFor(table: map<PostalKey, Json.Value>, postal: Json.Value): (v: Json.Value)
    ensures postal.Int? && Code(postal.i) in table ==> v == table[Code(postal.i)]
    ensures !(postal.Int? && Code(postal.i) in table) ==> v == Json.Int(0)
  {
    if postal.Int? && Code(postal.i) in table then table[Code(postal.i)] else Json.Int(0)
  }

  /** `add_postal_avg_sqm_price`: a record that already has the feature comes
      back as it is, and the table is not even loaded. Otherwise the table is
      loaded (its failure propagates), the record's postal code is looked up
      (a record without one is a KeyError), the feature is appended, and the
      progress message reads the record's address (a KeyError when absent). */
  function AddPostalAvgSqmPrice(record: Json.Record, load: Result<map<PostalKey, Json.Value>>): (r: Result<Json.Record>)
    ensures Json.HasKey(record, FeatureKey) ==> r == Ok(record)
    ensures !Json.HasKey(record, FeatureKey) ==>
              (r.Ok? <==> load.Ok? && Json.HasKey(record, "postal_code") && Json.HasKey(record, "address"))
    ensures !Json.HasKey(record, FeatureKey) && load.Err? ==> r == Err(load.error)
    ensures r.Ok? && !Json.HasKey(record, FeatureKey) ==>
              && Json.Keys(r.value) == Json.Keys(record) + [FeatureKey]
              && Json.Get(r.value, FeatureKey) == Some(PriceFor(load.value, Json.Get(record, "postal_code").value))
              && forall k :: k != FeatureKey ==> Json.Get(r.value, k) == Json.Get(record, k)
  {
    if Json.HasKey(record, FeatureKey) then Ok(record)
    else
      var table :- load;
      var postal :- FromOption(Json.Get(record, "postal_code"), KeyError);
      var updated := Json.Put(record, FeatureKey, PriceFor(table, postal));
      assert Json.Get(updated, "address") == Json.Get(record, "address");
      if !Json.HasKey(updated, "address") then Err(KeyError)
      else Ok(updated)
  }

  /** Adding the feature twice is adding it once. */
  lemma AddTwice(record: Json.Record, load: Result<map<PostalKey, Json.Value>>,
                 reload: Result<map<PostalKey, Json.Value>>)
    requires AddPostalAvgSqmPrice(record, load).Ok?
    ensures var once := AddPostalAvgSqmPrice(record, load).value;
            AddPostalAvgSqmPrice(once, reload) == Ok(once)
  {
    var once := AddPostalAvgSqmPrice(record, load).value;
    if !Json.HasKey(record, FeatureKey) {
      assert Json.Get(once, FeatureKey).Some?;
    }
  }
}
