/** The per-field parsers of scraper.py. Each takes the text the HTML query
    already pulled out of a node (a tile's type line or address line, the
    price span, the address headings) or the listing URL. */
module ScraperFields {
  import opened Results
  import opened Text

  // ---------------------------------------------------------------------------
  // Dwelling type

  /** `_extract_bolig_type`: the tile's type line, stripped and lower-cased,
      up to its first space. */
  function ExtractBoligType(mixText: string): (t: string)
    ensures ' ' !in t
    ensures StartsWith(Lower(Strip(mixText)), t)
    ensures |t| < |Lower(Strip(mixText))| ==> Lower(Strip(mixText))[|t|] == ' '
  {
    var low := Lower(Strip(mixText));
    SplitFirst(low, ' ');
    Split(low, ' ')[0]
  }

  // ---------------------------------------------------------------------------
  // Postal code

  /** `_extract_postal_code`: the fifth `/`-separated segment of the URL must be
      all digits. Too few segments is an IndexError; a non-numeric segment is
      a ValueError. */
  function ExtractPostalCode(url: string): (r: Result<nat>)
    ensures r.Err? ==> r.error == IndexError || r.error == ValueError
    ensures r.Err? && r.error == IndexError <==> |Split(url, '/')| < 5
    ensures |Split(url, '/')| >= 5 ==> (r.Ok? <==> IsDigits(Split(url, '/')[4]))
    ensures r.Ok? ==> r.value == DigitsValue(Split(url, '/')[4])
  {
    var parts := Split(url, '/');
    if |parts| < 5 then Err(IndexError)
    else if IsDigits(parts[4]) then Ok(DigitsValue(parts[4]))
    else Err(ValueError)
  }

  /** A URL whose fifth segment is the numeral of `n` yields `n`; any other
      fifth segment fails with ValueError. */
  lemma PostalCodeFromPath(segments: seq<string>, n: nat)
    requires |segments| >= 5
    requires forall i :: 0 <= i < |segments| ==> '/' !in segments[i]
    ensures segments[4] == Decimal(n) ==> ExtractPostalCode(Join(segments, "/")) == Ok(n)
    ensures !IsDigits(segments[4]) ==> ExtractPostalCode(Join(segments, "/")) == Err(ValueError)
  {
    SplitJoin(segments, '/');
    DecimalRoundTrip(n);
  }

  /** A whitespace-separated token that `isdigit()` and has length 4. */
  predicate IsPostalToken(w: string) {
    |w| == 4 && IsDigits(w)
  }

  /** `[int(s) for s in tokens if s.isdigit() and len(s) == 4][0]`: the first
      four-digit token; an empty list is an IndexError. */
  function FirstPostalToken(tokens: seq<string>): (r: Result<nat>)
    ensures r.Err? <==> forall i :: 0 <= i < |tokens| ==> !IsPostalToken(tokens[i])
    ensures r.Err? ==> r.error == IndexError
    ensures r.Ok? ==> r.value <= 9999
    ensures r.Ok? ==>
              exists k :: && 0 <= k < |tokens| && IsPostalToken(tokens[k])
                          && r.value == DigitsValue(tokens[k])
                          && forall j :: 0 <= j < k ==> !IsPostalToken(tokens[j])
  {
    if |tokens| == 0 then Err(IndexError)
    else if IsPostalToken(tokens[0]) then
      FourDigitsBound(tokens[0]);
      Ok(DigitsValue(tokens[0]))
    else
      var r := FirstPostalToken(tokens[1..]);
      assert r.Ok? ==>
               exists k :: && 0 <= k < |tokens| && IsPostalToken(tokens[k])
                           && r.value == DigitsValue(tokens[k])
                           && forall j :: 0 <= j < k ==> !IsPostalToken(tokens[j]) by {
        if r.Ok? {
          var k :| && 0 <= k < |tokens[1..]| && IsPostalToken(tokens[1..][k])
                   && r.value == DigitsValue(tokens[1..][k])
                   && forall j :: 0 <= j < k ==> !IsPostalToken(tokens[1..][j]);
          assert forall j :: 0 < j < k + 1 ==> tokens[j] == tokens[1..][j - 1];
        }
      }
      assert r.Err? <==> forall i :: 0 <= i < |tokens| ==> !IsPostalToken(tokens[i]) by {
        assert forall i :: 0 < i < |tokens| ==> tokens[i] == tokens[1..][i - 1];
      }
      r
  }

  lemma FourDigitsBound(w: string)
    requires IsPostalToken(w)
    ensures DigitsValue(w) <= 9999
  {
    DigitsValueBound(w);
    assert Pow10(4) == 10000;
  }

  /** `_extract_postal_code_page_wise`: the first four-digit token of the
      tile's address line, e.g. 5610 in "Tranevænget 2, 5610 Assens". */
  function ExtractPostalCodePageWise(addressText: string): (r: Result<nat>)
    ensures r.Err? ==> r.error == IndexError
    ensures r.Ok? ==> r.value <= 9999
  {
    FirstPostalToken(Words(Strip(addressText)))
  }

  /** On an address line made of words joined by single spaces, the tile
      postal code is the first four-digit word, and the extraction fails with
      IndexError exactly when no word has four digits. */
  lemma PageWiseOfWords(ws: seq<string>)
    requires forall i :: 0 <= i < |ws| ==> |ws[i]| > 0
    requires forall i, j :: 0 <= i < |ws| && 0 <= j < |ws[i]| ==> !IsSpace(ws[i][j])
    ensures ExtractPostalCodePageWise(Join(ws, " ")) == FirstPostalToken(ws)
  {
    var s := Join(ws, " ");
    JoinEnds(ws);
    StripTrimmed(s);
    WordsOfJoin(ws);
  }

  /** Words joined by spaces neither start nor end with whitespace. */
  lemma {:induction false} JoinEnds(ws: seq<string>)
    requires forall i :: 0 <= i < |ws| ==> |ws[i]| > 0
    requires forall i, j :: 0 <= i < |ws| && 0 <= j < |ws[i]| ==> !IsSpace(ws[i][j])
    ensures var s := Join(ws, " ");
            |s| > 0 ==> !IsSpace(s[0]) && !IsSpace(s[|s| - 1])
  {
    if |ws| > 1 {
      JoinEnds(ws[1..]);
      var rest := Join(ws[1..], " ");
      assert Join(ws, " ") == ws[0] + " " + rest;
      assert |rest| > 0 by { assert |ws[1..][0]| > 0; if |ws[1..]| > 1 { } }
    }
  }

  /** The example from the source's comment. */
  lemma PageWiseExample()
    ensures ExtractPostalCodePageWise("Tranevænget 2, 5610 Assens") == Ok(5610)
  {
    var ws := ["Tranevænget", "2,", "5610", "Assens"];
    ExampleWords();
    PageWiseOfWords(ws);
    ExampleFirstToken();
  }

  lemma ExampleWords()
    ensures Join(["Tranevænget", "2,", "5610", "Assens"], " ") == "Tranevænget 2, 5610 Assens"
  {
  }

  lemma ExampleFirstToken()
    ensures FirstPostalToken(["Tranevænget", "2,", "5610", "Assens"]) == Ok(5610)
  {
    var ws := ["Tranevænget", "2,", "5610", "Assens"];
    assert !IsPostalToken(ws[0]) by { assert !IsDigit(ws[0][0]); }
    assert !IsPostalToken(ws[1]);
    assert IsPostalToken(ws[2]);
    assert ws[1..][1..] == ["5610", "Assens"];
    assert DigitsValue("5") == 5 by { assert "5"[..0] == ""; }
    assert DigitsValue("56") == 56 by { assert "56"[..1] == "5"; }
    assert DigitsValue("561") == 561 by { assert "561"[..2] == "56"; }
    assert "5610"[..3] == "561";
  }

  // ---------------------------------------------------------------------------
  // Price

  /** `_extract_price`: the digits of the price text, in order, read as one
      integer; a text without digits is a ValueError. */
  function ExtractPrice(priceText: string): (r: Result<nat>)
    ensures r.Ok? <==> HasDigit(priceText)
    ensures r.Err? ==> r.error == ValueError
    ensures r.Ok? ==> r.value == DigitsValue(KeepDigits(priceText))
  {
    KeepDigitsStrip(priceText);
    KeepDigitsEmpty(priceText);
    KeepDigitsEmpty(Strip(priceText));
    DigitsOf(Strip(priceText))
  }

  /** Separators and currency around a numeral are ignored: a price text made
      of digit-free decoration around the numeral of `n` yields `n`. */
  lemma PriceOfNumeral(before: string, n: nat, after: string)
    requires !HasDigit(before) && !HasDigit(after)
    ensures ExtractPrice(before + Decimal(n) + after) == Ok(n)
  {
    DecimalRoundTrip(n);
    DigitsBetween(before, Decimal(n), after);
  }

  /** The digits of a numeral between two texts without digits. */
  lemma DigitsBetween(before: string, d: string, after: string)
    requires !HasDigit(before) && !HasDigit(after)
    requires IsDigits(d)
    ensures KeepDigits(before + d + after) == d
    ensures HasDigit(before + d + after)
  {
    var s := before + d + after;
    KeepDigitsEmpty(before);
    KeepDigitsEmpty(after);
    KeepDigitsOfDigits(d);
    KeepDigitsAppend(before + d, after);
    KeepDigitsAppend(before, d);
    assert s[|before|] == d[0];
  }

  /** Only the digits matter: the price of a text is the price of its digits. */
  lemma PriceOnlyDigits(priceText: string)
    ensures ExtractPrice(priceText) == ExtractPrice(KeepDigits(priceText))
  {
    var d := KeepDigits(priceText);
    KeepDigitsOfDigits(d);
    KeepDigitsEmpty(priceText);
    KeepDigitsEmpty(d);
  }

  /** "1.250.000 kr." is read as 1250000. */
  lemma PriceExample()
    ensures ExtractPrice("1.250.000 kr.") == Ok(1250000)
  {
    ExamplePriceDigits();
    ExamplePriceValue();
    PriceOnlyDigits("1.250.000 kr.");
    assert HasDigit("1.250.000 kr.") by { assert IsDigit("1.250.000 kr."[0]); }
  }

  lemma ExamplePriceDigits()
    ensures KeepDigits("1.250.000 kr.") == "1250000"
  {
    ExampleMillions();
    ExampleThousands();
    ExampleUnits();
    ExampleCurrency();
    KeepDigitsConcat4("1.", "250.", "000", " kr.");
    assert "1." + "250." + "000" + " kr." == "1.250.000 kr.";
    assert "1" + "250" + "000" + "" == "1250000";
  }

  lemma ExampleMillions() ensures KeepDigits("1.") == "1" { }
  lemma ExampleThousands() ensures KeepDigits("250.") == "250" { }
  lemma ExampleUnits() ensures KeepDigits("000") == "000" { }
  lemma ExampleCurrency() ensures KeepDigits(" kr.") == "" { }

  lemma KeepDigitsConcat4(a: string, b: string, c: string, d: string)
    ensures KeepDigits(a + b + c + d) == KeepDigits(a) + KeepDigits(b) + KeepDigits(c) + KeepDigits(d)
  {
    KeepDigitsAppend(a, b);
    KeepDigitsAppend(a + b, c);
    KeepDigitsAppend(a + b + c, d);
  }

  lemma ExamplePriceValue()
    ensures DigitsValue("1250000") == 1250000
  {
    assert DigitsValue("1") == 1 by { assert "1"[..0] == ""; }
    assert DigitsValue("12") == 12 by { assert "12"[..1] == "1"; }
    assert DigitsValue("125") == 125 by { assert "125"[..2] == "12"; }
    assert DigitsValue("1250") == 1250 by { assert "1250"[..3] == "125"; }
    assert DigitsValue("12500") == 12500 by { assert "12500"[..4] == "1250"; }
    assert DigitsValue("125000") == 125000 by { assert "125000"[..5] == "12500"; }
    assert "1250000"[..6] == "125000";
  }

  // ---------------------------------------------------------------------------
  // Address

  /** The characters `_extract_address` deletes from the joined address. */
  const AddressDropped: set<char> := {'\n', ','}

  /** `[c.text.strip() for c in ...]` without the empty strings. */
  function KeptComponents(components: seq<string>): (kept: seq<string>)
    ensures forall i :: 0 <= i < |kept| ==> |kept[i]| > 0
  {
    NonEmpty(seq(|components|, i requires 0 <= i < |components| => Strip(components[i])))
  }

  /** `_extract_address`: for the primary site, the stripped, non-empty address
      headings joined by spaces, with newlines and commas removed; the one
      mirror site raises NotImplementedError, and any other site name reaches
      `return address` with `address` never assigned. */
  function ExtractAddress(components: seq<string>, site: string): (r: Result<string>)
    ensures r.Ok? <==> site == "nybolig"
    ensures r.Ok? ==> '\n' !in r.value && ',' !in r.value
    ensures r.Ok? ==> r.value == Without(Join(KeptComponents(components), " "), AddressDropped)
    ensures site == "home" ==> r == Err(NotImplementedError)
    ensures site != "nybolig" && site != "home" ==> r == Err(UnboundLocalError)
  {
    if site == "nybolig" then
      var joined := Join(KeptComponents(components), " ");
      var noNewline := ReplaceAll(joined, "\n", "");
      RemoveChar(joined, '\n');
      RemoveChar(noNewline, ',');
      WithoutTwice(joined, {'\n'}, {','});
      assert {'\n'} + {','} == AddressDropped;
      Ok(ReplaceAll(noNewline, ",", ""))
    else if site == "home" then Err(NotImplementedError)
    else Err(UnboundLocalError)
  }

  /** An address heading with no surrounding whitespace, no newline and no
      comma. */
  predicate CleanHeading(c: string) {
    |c| > 0 && Strip(c) == c && '\n' !in c && ',' !in c
  }

  /** Headings that are already clean come out simply joined by spaces. */
  lemma AddressOfCleanComponents(components: seq<string>)
    requires forall i :: 0 <= i < |components| ==> CleanHeading(components[i])
    ensures ExtractAddress(components, "nybolig") == Ok(Join(components, " "))
  {
    KeptOfClean(components);
    forall c | c in AddressDropped ensures c !in Join(components, " ") {
      JoinAvoids(components, " ", c);
    }
    WithoutAbsent(Join(components, " "), AddressDropped);
  }

  lemma KeptOfClean(components: seq<string>)
    requires forall i :: 0 <= i < |components| ==> CleanHeading(components[i])
    ensures KeptComponents(components) == components
  {
    var stripped := seq(|components|, i requires 0 <= i < |components| => Strip(components[i]));
    assert stripped == components;
    NonEmptyAll(components);
  }

  lemma {:induction false} NonEmptyAll(ps: seq<string>)
    requires forall i :: 0 <= i < |ps| ==> |ps[i]| > 0
    ensures NonEmpty(ps) == ps
  {
    if |ps| > 0 {
      NonEmptyAll(ps[1..]);
      assert [ps[0]] + ps[1..] == ps;
    }
  }
}
