/**
 * The text classifiers of the listing scraper: the property type from the
 * title, the normalisation of a price text, the split of the location into
 * city and state, the storage path of a photo, and the loop that reads the
 * room, suite, bathroom, parking and area figures from the detail texts.
 * The page is replaced by the texts read from it.
 */
module Scraper {
  import opened Wrappers
  import opened Text
  import Executor
  import Publisher

  // ---------------------------------------------------------------------------
  // Property type
  // ---------------------------------------------------------------------------

  /** "casa" in the lower-cased title gives Casa, otherwise "terreno" gives Terreno, otherwise Apartamento. */
  function DetectType(titulo: string): (tipo: string)
    ensures tipo == "Casa" <==> Contains(Lower(titulo), "casa")
    ensures tipo == "Terreno" <==> !Contains(Lower(titulo), "casa") && Contains(Lower(titulo), "terreno")
    ensures tipo == "Apartamento" <==> !Contains(Lower(titulo), "casa") && !Contains(Lower(titulo), "terreno")
  {
    if Contains(Lower(titulo), "casa") then "Casa"
    else if Contains(Lower(titulo), "terreno") then "Terreno"
    else "Apartamento"
  }

  /** Every detected type has a form code in the executor's table and a subtype list in the publisher's. */
  lemma DetectedTypeIsKnown(titulo: string)
    ensures DetectType(titulo) in Executor.PropertyTypeCodes
    ensures DetectType(titulo) in Publisher.PropertyTypes
    ensures Executor.MapPropertyType(DetectType(titulo)) == Executor.PropertyTypeCodes[DetectType(titulo)]
  {
  }

  // ---------------------------------------------------------------------------
  // Price text
  // ---------------------------------------------------------------------------

  /**
   * The price text as handed to `float`: "R$" removed, thousands dots removed,
   * the decimal comma turned into a dot, surrounding white space stripped.
   */
  function NormalizePrice(s: string): string
  {
    Strip(Replace(Replace(Replace(s, "R$", ""), ".", ""), ",", "."))
  }

  /**
   * The normalised text is trimmed, holds no comma, and holds exactly one dot
   * per comma of the original text (its thousands dots are gone).
   */
  lemma NormalizePriceSpec(s: string)
    ensures Trimmed(NormalizePrice(s))
    ensures ',' !in NormalizePrice(s)
    ensures Occurrences(NormalizePrice(s), '.') == Occurrences(s, ',')
  {
    var a := Replace(s, "R$", "");
    var b := Replace(a, ".", "");
    var c := Replace(b, ",", ".");
    assert Occurrences(b, ',') == Occurrences(s, ',') by {
      OccurrencesRemove(s, "R$", ',');
      OccurrencesRemove(a, ".", ',');
    }
    assert Occurrences(c, '.') == Occurrences(b, ',') && Occurrences(c, ',') == 0 by {
      DotsRemoved(a);
      CommasToDots(b);
    }
    StripSpec(c);
    StripOccurrences(c, '.');
    StripOccurrences(c, ',');
    OccurrencesZero(NormalizePrice(s), ',');
  }

  /**
   * A reference reading of a price text, character by character: a
   * thousands dot is dropped, the decimal comma becomes a dot, and every other
   * character is kept in place.
   */
  function PriceChars(t: string): (r: string)
    ensures forall c :: c in r ==> c == '.' || c in t
  {
    if |t| == 0 then ""
    else
      var head := if t[0] == '.' then "" else if t[0] == ',' then "." else [t[0]];
      assert forall c :: c in PriceChars(t[1..]) ==> c == '.' || c in t by {
        assert forall c :: c in t[1..] ==> c in t;
      }
      head + PriceChars(t[1..])
  }

  /** Dropping the dots and then turning commas into dots is the character-wise reading. */
  lemma {:induction false} DotsThenCommas(t: string)
    ensures Replace(Replace(t, ".", ""), ",", ".") == PriceChars(t)
    decreases |t|
  {
    if |t| > 0 {
      DotsThenCommas(t[1..]);
      var rest := Replace(t[1..], ".", "");
      assert t[..1] == [t[0]];
      if t[0] == '.' {
        assert Replace(t, ".", "") == rest;
      } else {
        var x := [t[0]] + rest;
        assert Replace(t, ".", "") == x;
        assert x[..1] == [t[0]] && x[1..] == rest;
        if t[0] == ',' {
          assert Replace(x, ",", ".") == "." + Replace(rest, ",", ".");
        } else {
          assert [t[0]] != ",";
          assert Replace(x, ",", ".") == [t[0]] + Replace(rest, ",", ".");
        }
      }
    }
  }

  /**
   * Price texts without an 'R' or white space in their figures: with or
   * without a leading "R$ ", the normalised text is the character-wise
   * reading, so every digit survives in its order and position relative to
   * the decimal separator.
   */
  lemma NormalizePriceExact(t: string)
    requires 'R' !in t
    requires forall i :: 0 <= i < |t| ==> !IsSpace(t[i])
    ensures NormalizePrice(t) == PriceChars(t)
    ensures NormalizePrice("R$ " + t) == PriceChars(t)
  {
    PriceCharsTrimmed(t);
    ReplaceAbsent(t, "R$", "");
    DotsThenCommas(t);
    StripSpec(PriceChars(t));
    NormalizePricePrefixed(t);
  }

  /** The figures of a price text without white space have none either. */
  lemma PriceCharsTrimmed(t: string)
    requires forall i :: 0 <= i < |t| ==> !IsSpace(t[i])
    ensures Trimmed(PriceChars(t))
  {
    var figures := PriceChars(t);
    if |figures| > 0 {
      assert figures[0] in figures && figures[|figures| - 1] in figures;
    }
  }

  /** The leading "R$ " is removed and its space stripped, when the figures are trimmed. */
  lemma NormalizePricePrefixed(t: string)
    requires 'R' !in t
    requires Trimmed(PriceChars(t))
    ensures NormalizePrice("R$ " + t) == PriceChars(t)
  {
    var spaced := " " + t;
    CurrencyPrefix(t);
    CurrencyRemoved(spaced);
    DotsThenCommas(spaced);
    PriceCharsSpaced(t);
    NormalizeThroughSteps("R$" + spaced, spaced, PriceChars(t));
  }

  /** "R$ " is "R$" followed by a space. */
  lemma CurrencyPrefix(t: string)
    ensures "R$ " + t == "R$" + (" " + t)
  {
  }

  /** The three replacements and the strip, one step at a time. */
  lemma NormalizeThroughSteps(s: string, spaced: string, figures: string)
    requires Replace(s, "R$", "") == spaced
    requires Replace(Replace(spaced, ".", ""), ",", ".") == " " + figures
    requires Trimmed(figures)
    ensures NormalizePrice(s) == figures
  {
    StripSpaceBefore(figures);
  }

  /** A leading "R$" goes, and nothing else is removed when no other 'R' follows. */
  lemma CurrencyRemoved(u: string)
    requires 'R' !in u
    ensures Replace("R$" + u, "R$", "") == u
  {
    var prefixed := "R$" + u;
    assert |prefixed| >= 2 && prefixed[..2] == "R$" && prefixed[2..] == u;
    ReplaceAbsent(u, "R$", "");
  }

  /** A leading space is kept by the character-wise reading. */
  lemma PriceCharsSpaced(t: string)
    ensures PriceChars(" " + t) == " " + PriceChars(t)
  {
    var spaced := " " + t;
    assert spaced[0] == ' ' && spaced[1..] == t;
  }

  /** A typical price: "R$ 1.234,56" becomes "1234.56". */
  lemma NormalizePriceExample()
    ensures NormalizePrice("R$ 1.234,56") == "1234.56"
  {
    PricedExample("1.234,56");
    assert "R$ 1.234,56" == "R$ " + "1.234,56";
  }

  /** The example with its figures passed as a parameter rather than written in place. */
  lemma PricedExample(t: string)
    requires t == "1.234,56"
    ensures NormalizePrice("R$ " + t) == "1234.56"
  {
    PriceCharsExample();
    NormalizePricePrefixed(t);
  }

  /** The character-wise reading of "1.234,56", which has no 'R' and is trimmed. */
  lemma PriceCharsExample()
    ensures PriceChars("1.234,56") == "1234.56"
    ensures 'R' !in "1.234,56" && Trimmed(PriceChars("1.234,56"))
  {
    var t := "1.234,56";
    PriceCharsFraction();
    assert t[1..] == ".234,56" && t[1..][1..] == "234,56";
  }

  /** The character-wise reading of "234,56". */
  lemma PriceCharsFraction()
    ensures PriceChars("234,56") == "234.56"
  {
    assert PriceChars("56") == "56" by {
      assert "56"[1..] == "6" && "6"[1..] == "";
    }
    assert "234,56"[1..] == "34,56" && "34,56"[1..] == "4,56";
    assert "4,56"[1..] == ",56" && ",56"[1..] == "56";
  }

  /** Removing the dots leaves none. */
  lemma DotsRemoved(a: string)
    ensures Occurrences(Replace(a, ".", ""), '.') == 0
  {
    OccurrencesReplaceChar(a, '.', "", '.');
    assert Occurrences("", '.') == 0;
  }

  /** Turning commas into dots leaves no comma and adds one dot per comma. */
  lemma CommasToDots(b: string)
    requires Occurrences(b, '.') == 0
    ensures Occurrences(Replace(b, ",", "."), '.') == Occurrences(b, ',')
    ensures Occurrences(Replace(b, ",", "."), ',') == 0
  {
    OccurrencesReplaceChar(b, ',', ".", '.');
    OccurrencesReplaceChar(b, ',', ".", ',');
    assert Occurrences(".", '.') == 1 && Occurrences(".", ',') == 0;
  }

  // ---------------------------------------------------------------------------
  // Property-tax period
  // ---------------------------------------------------------------------------

  /**
   * The property-tax period read from the tax block's text: only when the
   * block exists and its value parsed as a number (a failed parse leaves
   * the period unset); "Mensal" wins over "Anual".
   */
  function IptuPeriod(present: bool, valueParsed: bool, text: string): (periodo: Option<string>)
    ensures periodo == Some("Mensal") <==> present && valueParsed && Contains(text, "Mensal")
    ensures periodo == Some("Anual") <==>
      present && valueParsed && !Contains(text, "Mensal") && Contains(text, "Anual")
    ensures periodo.None? <==>
      !present || !valueParsed || (!Contains(text, "Mensal") && !Contains(text, "Anual"))
  {
    if !present || !valueParsed then None
    else if Contains(text, "Mensal") then Some("Mensal")
    else if Contains(text, "Anual") then Some("Anual")
    else None
  }

  /** The period the scraper stores is billed monthly by the form exactly when the block said "Mensal". */
  lemma IptuPeriodBilling(present: bool, valueParsed: bool, text: string)
    ensures Executor.MapIptuPeriod(IptuPeriod(present, valueParsed, text)) == "MONTHLY"
      <==> present && valueParsed && Contains(text, "Mensal")
  {
    ShorterNotContained("Anual", "Mensal");
  }

  // ---------------------------------------------------------------------------
  // City and state
  // ---------------------------------------------------------------------------

  datatype Place = Place(city: string, state: string)

  /** The location's segment after its last '-', stripped. */
  function LastSegment(localizacao: string): string
  {
    var pieces := Split(localizacao, '-');
    Strip(pieces[|pieces| - 1])
  }

  /**
   * City and state from a location such as "Bairro - Cidade/UF": tried only
   * when the text holds both '-' and '/', and set only when the segment after
   * the last '-' holds '/'. That segment is unpacked into exactly two parts,
   * so a segment with two or more '/' raises a ValueError, which nothing
   * catches.
   */
  function SplitLocation(localizacao: string): (r: Result<Option<Place>>)
    ensures r.Success? && r.value.Some? ==>
      Trimmed(r.value.value.city) && Trimmed(r.value.value.state)
      && '/' !in r.value.value.city && '/' !in r.value.value.state
    ensures r.Success? && r.value.Some? ==> '-' in localizacao && '/' in LastSegment(localizacao)
    ensures r.Failure? <==> '-' in localizacao && '/' in localizacao && |Split(LastSegment(localizacao), '/')| > 2
  {
    if '-' in localizacao && '/' in localizacao then CityState(LastSegment(localizacao))
    else Success(None)
  }

  /**
   * The city and state of the segment after the last '-': nothing when it has
   * no '/', the two stripped parts when it has one, and a ValueError when it
   * has more.
   */
  function CityState(parts: string): (r: Result<Option<Place>>)
    ensures r.Success? && r.value.Some? ==>
      Trimmed(r.value.value.city) && Trimmed(r.value.value.state)
      && '/' !in r.value.value.city && '/' !in r.value.value.state
    ensures r.Success? && r.value.Some? ==> '/' in parts
    ensures r.Failure? <==> |Split(parts, '/')| > 2
  {
    var pieces := Split(parts, '/');
    SplitCount(parts, '/');
    if '/' !in parts then Success(None)
    else if |pieces| == 2 then
      StripWithout(pieces[0], '/');
      StripWithout(pieces[1], '/');
      Success(Some(Place(Strip(pieces[0]), Strip(pieces[1]))))
    else Failure("ValueError")
  }

  /** The segment after " - " is the last segment when it holds no '-' and is trimmed. */
  lemma LastSegmentOf(district: string, segment: string)
    requires '-' !in segment && Trimmed(segment)
    ensures LastSegment(district + " - " + segment) == segment
  {
    var loc := district + " - " + segment;
    assert loc == (district + " ") + ['-'] + (" " + segment);
    assert '-' !in " " + segment;
    SplitConcat(district + " ", " " + segment, '-');
    SplitWhole(" " + segment, '-');
    StripSpaceBefore(segment);
  }

  /** Two parts around one '/' split back into those parts. */
  lemma SplitTwoParts(city: string, state: string)
    requires '/' !in city && '/' !in state
    ensures Split(city + "/" + state, '/') == [city, state]
  {
    assert city + "/" + state == city + ['/'] + state;
    SplitConcat(city, state, '/');
    SplitWhole(city, '/');
    SplitWhole(state, '/');
  }

  /** A location written as district, " - ", city, "/", state gives back that city and state. */
  lemma SplitLocationRoundTrip(district: string, city: string, state: string)
    requires Trimmed(city) && Trimmed(state)
    requires '-' !in city && '/' !in city && '-' !in state && '/' !in state
    ensures SplitLocation(district + " - " + city + "/" + state) == Success(Some(Place(city, state)))
  {
    var segment := city + "/" + state;
    assert district + " - " + city + "/" + state == district + " - " + segment;
    LocationParts(district, segment);
    assert '/' in segment && '-' !in segment && Trimmed(segment) by {
      assert segment[|city|] == '/';
    }
    LastSegmentOf(district, segment);
    SplitTwoParts(city, state);
    StripSpec(city);
    StripSpec(state);
    SplitLocationOfSegment(district + " - " + segment, segment);
  }

  /** A location made of a district, " - " and a segment holding '/' holds both separators. */
  lemma LocationParts(district: string, segment: string)
    requires '/' in segment
    ensures '-' in district + " - " + segment && '/' in district + " - " + segment
  {
    var loc := district + " - " + segment;
    assert loc[|district| + 1] == '-';
    var k :| 0 <= k < |segment| && segment[k] == '/';
    assert loc[|district| + 3 + k] == '/';
  }

  /** What the split gives once the last segment of a location with both separators is known. */
  lemma SplitLocationOfSegment(loc: string, segment: string)
    requires '-' in loc && '/' in loc && LastSegment(loc) == segment
    ensures SplitLocation(loc) ==
      if '/' !in segment then Success(None)
      else if |Split(segment, '/')| == 2 then
        Success(Some(Place(Strip(Split(segment, '/')[0]), Strip(Split(segment, '/')[1]))))
      else Failure("ValueError")
  {
  }

  /** A location whose last segment has two '/' makes the scraper raise. */
  lemma SplitLocationRaises(district: string, city: string, state: string, extra: string)
    requires Trimmed(city) && '-' !in city && '-' !in state && '-' !in extra && Trimmed(extra)
    ensures SplitLocation(district + " - " + city + "/" + state + "/" + extra).Failure?
  {
    var segment := city + "/" + (state + "/" + extra);
    assert district + " - " + city + "/" + state + "/" + extra == district + " - " + segment;
    assert '/' in segment && '-' !in segment && Trimmed(segment) by {
      assert segment[|city|] == '/';
    }
    LocationParts(district, segment);
    LastSegmentOf(district, segment);
    SplitPieces(city, state + "/" + extra);
    SplitLocationOfSegment(district + " - " + segment, segment);
  }

  /** Text after a '/' adds at least one more piece to the split. */
  lemma SplitPieces(head: string, rest: string)
    requires '/' in rest
    ensures |Split(head + "/" + rest, '/')| > 2
  {
    assert head + "/" + rest == head + ['/'] + rest;
    SplitConcat(head, rest, '/');
    SplitCount(head, '/');
    SplitCount(rest, '/');
  }

  // ---------------------------------------------------------------------------
  // Photo storage path
  // ---------------------------------------------------------------------------

  const PathPrefix: string := "images/"
  const PathSuffix: string := ".jpg"

  /** `images/{codigo}/{idx:03d}.jpg`. */
  function StoragePath(codigo: string, idx: nat): string
  {
    PathPrefix + codigo + "/" + ZeroPad(idx, 3) + PathSuffix
  }

  /** The file name of the path has at least three digits and reads back as the index. */
  lemma StoragePathIndex(codigo: string, idx: nat)
    ensures var name := ZeroPad(idx, 3);
      StoragePath(codigo, idx) == PathPrefix + codigo + "/" + name + PathSuffix
      && |name| >= 3 && AllDigits(name) && ParseDigits(name) == idx
  {
    ParseZeroPad(idx, 3);
  }

  /** A code without '/' and an index are determined by the path. */
  lemma StoragePathInjective(c1: string, i1: nat, c2: string, i2: nat)
    requires '/' !in c1 && '/' !in c2
    requires StoragePath(c1, i1) == StoragePath(c2, i2)
    ensures c1 == c2 && i1 == i2
  {
    var n1, n2 := ZeroPad(i1, 3), ZeroPad(i2, 3);
    StoragePathParts(c1, i1);
    StoragePathParts(c2, i2);
    PrefixCancel(PathPrefix, c1 + ['/'] + (n1 + PathSuffix), c2 + ['/'] + (n2 + PathSuffix));
    SameBeforeSeparator(c1, n1 + PathSuffix, c2, n2 + PathSuffix, '/');
    SuffixCancel(n1, n2, PathSuffix);
    ParseZeroPad(i1, 3);
    ParseZeroPad(i2, 3);
  }

  /** The path as prefix, then code, separator and file name. */
  lemma StoragePathParts(codigo: string, idx: nat)
    ensures StoragePath(codigo, idx) == PathPrefix + (codigo + ['/'] + (ZeroPad(idx, 3) + PathSuffix))
  {
  }

  /** A common prefix cancels. */
  lemma PrefixCancel(p: string, t1: string, t2: string)
    requires p + t1 == p + t2
    ensures t1 == t2
  {
    assert t1 == (p + t1)[|p|..];
    assert t2 == (p + t2)[|p|..];
  }

  /** A common suffix cancels. */
  lemma SuffixCancel(n1: string, n2: string, suffix: string)
    requires n1 + suffix == n2 + suffix
    ensures n1 == n2
  {
    assert n1 == (n1 + suffix)[..|n1|];
    assert n2 == (n2 + suffix)[..|n2|];
  }

  /** Text before the first separator is determined when neither prefix holds the separator. */
  lemma SameBeforeSeparator(a: string, x: string, b: string, y: string, sep: char)
    requires sep !in a && sep !in b
    requires a + [sep] + x == b + [sep] + y
    ensures a == b && x == y
  {
    var s := a + [sep] + x;
    IndexOfAfter(a, x, sep);
    IndexOfAfter(b, y, sep);
    assert a == s[..|a|] == b;
    assert x == s[|a| + 1..] == y;
  }

  // ---------------------------------------------------------------------------
  // Pattern searches of the details loop
  // ---------------------------------------------------------------------------

  /** The character classes the details loop searches for: `\d`, and `[\d,]`. */
  datatype CharClass = Digits | DigitsOrComma

  predicate InClass(c: char, k: CharClass)
  {
    match k
    case Digits => IsDigit(c)
    case DigitsOrComma => IsDigit(c) || c == ','
  }

  /** The end of the run of class `k` that starts at `i`. */
  function RunEnd(s: string, i: nat, k: CharClass): (e: nat)
    requires i <= |s|
    ensures i <= e <= |s|
    ensures forall j :: i <= j < e ==> InClass(s[j], k)
    ensures e == |s| || !InClass(s[e], k)
    decreases |s| - i
  {
    if i < |s| && InClass(s[i], k) then RunEnd(s, i + 1, k) else i
  }

  /** The position after the white space starting at `i` (`\s*`). */
  function SkipSpace(s: string, i: nat): (e: nat)
    requires i <= |s|
    ensures i <= e <= |s|
    ensures forall j :: i <= j < e ==> IsSpace(s[j])
    ensures e == |s| || !IsSpace(s[e])
    decreases |s| - i
  {
    if i < |s| && IsSpace(s[i]) then SkipSpace(s, i + 1) else i
  }

  /** Some word of `words` follows position `i`, after optional white space; any position when `words` is empty. */
  predicate FollowedBy(s: string, i: nat, words: seq<string>)
    requires i <= |s|
  {
    words == [] || exists w :: w in words && StartsWith(s[SkipSpace(s, i)..], w)
  }

  /**
   * `re.search(r'(C+)\s*(?:w1|w2|...)', s).group(1)` searching from `from`:
   * the first maximal run of class `k` followed by one of `words`. A run that
   * is not followed by a word cannot start a match anywhere inside it (the
   * character after a shorter run is of class `k`, neither white space nor
   * the start of a word), so the search resumes after the run.
   */
  function FindRun(s: string, from: nat, k: CharClass, words: seq<string>): (r: Option<string>)
    requires from <= |s|
    requires forall w :: w in words ==> |w| > 0 && !InClass(w[0], k) && !IsSpace(w[0])
    ensures r.Some? ==> |r.value| > 0 && forall j :: 0 <= j < |r.value| ==> InClass(r.value[j], k)
    ensures (forall j :: from <= j < |s| ==> !InClass(s[j], k)) ==> r.None?
    decreases |s| - from
  {
    if from == |s| then None
    else if InClass(s[from], k) then
      var e := RunEnd(s, from, k);
      if FollowedBy(s, e, words) then Some(s[from..e]) else FindRun(s, e, k, words)
    else FindRun(s, from + 1, k, words)
  }

  /** A maximal run of class `k` starts at `i`, when the search begins at `from`. */
  predicate RunStartsAt(s: string, from: nat, i: nat, k: CharClass)
  {
    from <= i < |s| && InClass(s[i], k) && (i == from || !InClass(s[i - 1], k))
  }

  /**
   * The search is leftmost: the capture is the run starting at the first run
   * start that is followed by one of the words.
   */
  lemma {:induction false} FindRunLeftmost(s: string, from: nat, k: CharClass, words: seq<string>, i: nat)
    requires from <= |s|
    requires forall w :: w in words ==> |w| > 0 && !InClass(w[0], k) && !IsSpace(w[0])
    requires RunStartsAt(s, from, i, k) && FollowedBy(s, RunEnd(s, i, k), words)
    requires forall j :: from <= j < i && RunStartsAt(s, from, j, k) ==> !FollowedBy(s, RunEnd(s, j, k), words)
    ensures FindRun(s, from, k, words) == Some(s[i..RunEnd(s, i, k)])
    decreases |s| - from
  {
    if InClass(s[from], k) {
      if i != from {
        var e := RunEnd(s, from, k);
        assert RunStartsAt(s, from, from, k);
        assert from <= i - 1 && !InClass(s[i - 1], k);
        assert i > e;
        forall j | e <= j < i && RunStartsAt(s, e, j, k)
          ensures !FollowedBy(s, RunEnd(s, j, k), words)
        {
          assert j != e;
          assert RunStartsAt(s, from, j, k);
        }
        FindRunLeftmost(s, e, k, words, i);
      }
    } else {
      forall j | from + 1 <= j < i && RunStartsAt(s, from + 1, j, k)
        ensures !FollowedBy(s, RunEnd(s, j, k), words)
      {
        assert RunStartsAt(s, from, j, k);
      }
      FindRunLeftmost(s, from + 1, k, words, i);
    }
  }

  /** A run followed by one of the words is always found: the search fails only when there is none. */
  lemma {:induction false} FindRunFound(s: string, from: nat, k: CharClass, words: seq<string>, i: nat)
    requires from <= |s|
    requires forall w :: w in words ==> |w| > 0 && !InClass(w[0], k) && !IsSpace(w[0])
    requires RunStartsAt(s, from, i, k) && FollowedBy(s, RunEnd(s, i, k), words)
    ensures FindRun(s, from, k, words).Some?
    decreases |s| - from
  {
    if InClass(s[from], k) {
      var e := RunEnd(s, from, k);
      if !FollowedBy(s, e, words) {
        assert i != from;
        assert from <= i - 1 && !InClass(s[i - 1], k);
        assert i > e;
        FindRunFound(s, e, k, words, i);
      }
    } else {
      FindRunFound(s, from + 1, k, words, i);
    }
  }

  /** The first number of a text (`re.search(r'(\d+)', texto)`). */
  function FirstNumber(texto: string): (r: Option<nat>)
  {
    match FindRun(texto, 0, Digits, [])
    case None => None
    case Some(run) => Some(ParseDigits(run))
  }

  const ParkingWords: seq<string> := ["vaga", "vagas", "garagem"]

  /** The number written before "vaga", "vagas" or "garagem". */
  function ParkingNumber(texto: string): (r: Option<nat>)
  {
    match FindRun(texto, 0, Digits, ParkingWords)
    case None => None
    case Some(run) => Some(ParseDigits(run))
  }

  /** The digits-and-commas run written before "m²", with its commas turned into dots. */
  function AreaText(texto: string): (r: Option<string>)
    ensures r.Some? <==> FindRun(texto, 0, DigitsOrComma, ["m²"]).Some?
    ensures r.Some? ==> r.value == Replace(FindRun(texto, 0, DigitsOrComma, ["m²"]).value, ",", ".")
    ensures r.Some? ==> |r.value| > 0 && ',' !in r.value
  {
    match FindRun(texto, 0, DigitsOrComma, ["m²"])
    case None => None
    case Some(run) =>
      OccurrencesReplaceChar(run, ',', ".", ',');
      OccurrencesZero(Replace(run, ",", "."), ',');
      ReplaceLength(run);
      Some(Replace(run, ",", "."))
  }

  /** Replacing commas by dots keeps the length. */
  lemma {:induction false} ReplaceLength(s: string)
    ensures |Replace(s, ",", ".")| == |s|
    decreases |s|
  {
    if |s| > 0 {
      ReplaceLength(s[1..]);
    }
  }

  /**
   * A text of digits and dots that `float` accepts: at most one dot and at
   * least one digit (".", "1.2.3" raise a ValueError).
   */
  predicate FloatAccepts(t: string)
  {
    Occurrences(t, '.') <= 1 && Occurrences(t, '.') < |t|
  }

  // ---------------------------------------------------------------------------
  // Details loop
  // ---------------------------------------------------------------------------

  /** The figures read from the detail texts; the area is kept as its decimal text. */
  datatype Details = Details(
    rooms: Option<nat>, suites: Option<nat>, bathrooms: Option<nat>,
    parking: Option<nat>, area: Option<string>)

  datatype Category = Rooms | Suites | Bathrooms | Parking | Area

  /** The loop's state: the figures, the categories found, and whether an exception ended the loop. */
  datatype Scan = Scan(details: Details, found: set<Category>, aborted: bool)

  const NoDetails: Details := Details(None, None, None, None, None)

  const MaxDetailTexts: nat := 8

  /** A category is found exactly when its figure is set. */
  predicate Consistent(d: Details, found: set<Category>)
  {
    (Rooms in found <==> d.rooms.Some?) && (Suites in found <==> d.suites.Some?)
    && (Bathrooms in found <==> d.bathrooms.Some?) && (Parking in found <==> d.parking.Some?)
    && (Area in found <==> d.area.Some?)
  }

  /** Reads the area from a text, or ends the loop when `float` rejects the captured text. */
  function TakeArea(texto: string, s: Scan): Scan
  {
    match AreaText(texto)
    case None => s
    case Some(t) =>
      if FloatAccepts(t) then Scan(s.details.(area := Some(t)), s.found + {Area}, false)
      else s.(aborted := true)
  }

  /** The branch of the elif chain a text takes, given the categories already found. */
  function Chosen(texto: string, found: set<Category>): Option<Category>
  {
    if Contains(texto, "dormitório") && Rooms !in found then Some(Rooms)
    else if Contains(texto, "suíte") && Suites !in found then Some(Suites)
    else if Contains(texto, "banheiro") && Bathrooms !in found then Some(Bathrooms)
    else if (Contains(texto, "vaga") || Contains(texto, "garagem")) && Parking !in found then Some(Parking)
    else if Contains(texto, "m²") && Area !in found then Some(Area)
    else None
  }

  /** One pass of the loop body over one detail text: the branch chosen, then its search. */
  function Step(texto: string, s: Scan): (r: Scan)
  {
    var d, found := s.details, s.found;
    match Chosen(texto, found)
    case None => s
    case Some(Rooms) =>
      (match FirstNumber(texto)
       case None => s
       case Some(n) => Scan(d.(rooms := Some(n)), found + {Rooms}, false))
    case Some(Suites) =>
      (match FirstNumber(texto)
       case None => s
       case Some(n) => Scan(d.(suites := Some(n)), found + {Suites}, false))
    case Some(Bathrooms) =>
      if Contains(texto, "suíte") then s
      else
        (match FirstNumber(texto)
         case None => s
         case Some(n) => Scan(d.(bathrooms := Some(n)), found + {Bathrooms}, false))
    case Some(Parking) =>
      (match ParkingNumber(texto)
       case None => s
       case Some(n) => Scan(d.(parking := Some(n)), found + {Parking}, false))
    case Some(Area) =>
      if Contains(texto, "útil") then TakeArea(texto, s)
      else if d.area.None? && Contains(texto, "total") then TakeArea(texto, s)
      else s
  }

  /** The loop over the texts from the given state, stopping at an exception. */
  function Run(texts: seq<string>, s: Scan): Scan
  {
    if |texts| == 0 || s.aborted then s else Run(texts[1..], Step(texts[0], s))
  }

  /** The figures the scraper reads from the detail texts of a page. */
  function DetailsOf(texts: seq<string>): Details
  {
    var n := if |texts| < MaxDetailTexts then |texts| else MaxDetailTexts;
    Run(texts[..n], Scan(NoDetails, {}, false)).details
  }

  /**
   * The details loop: the first eight texts in order, each feeding the first
   * branch that applies; a rejected area text ends the loop with the figures
   * read so far.
   */
  method ExtractDetails(texts: seq<string>) returns (d: Details)
    ensures d == DetailsOf(texts)
  {
    var quartos, suites, banheiros, vagas: Option<nat> := None, None, None, None;
    var area: Option<string> := None;
    var found: set<Category> := {};
    var n := if |texts| < MaxDetailTexts then |texts| else MaxDetailTexts;
    ghost var all := texts[..n];
    var i := 0;
    while i < n
      invariant 0 <= i <= n
      invariant Run(all, Scan(NoDetails, {}, false))
        == Run(all[i..], Scan(Details(quartos, suites, banheiros, vagas, area), found, false))
    {
      var texto := texts[i];
      ghost var before := Scan(Details(quartos, suites, banheiros, vagas, area), found, false);
      assert all[i..][0] == texto && all[i..][1..] == all[i + 1..];
      if Contains(texto, "dormitório") && Rooms !in found {
        var m := FirstNumber(texto);
        if m.Some? {
          quartos := m;
          found := found + {Rooms};
        }
      } else if Contains(texto, "suíte") && Suites !in found {
        var m := FirstNumber(texto);
        if m.Some? {
          suites := m;
          found := found + {Suites};
        }
      } else if Contains(texto, "banheiro") && Bathrooms !in found {
        if !Contains(texto, "suíte") {
          var m := FirstNumber(texto);
          if m.Some? {
            banheiros := m;
            found := found + {Bathrooms};
          }
        }
      } else if (Contains(texto, "vaga") || Contains(texto, "garagem")) && Parking !in found {
        var m := ParkingNumber(texto);
        if m.Some? {
          vagas := m;
          found := found + {Parking};
        }
      } else if Contains(texto, "m²") && Area !in found {
        if Contains(texto, "útil") || (area.None? && Contains(texto, "total")) {
          var m := AreaText(texto);
          if m.Some? {
            if !FloatAccepts(m.value) {
              assert Step(texto, before).aborted;
              break;
            }
            area := m;
            found := found + {Area};
          }
        }
      }
      assert Step(texto, before) == Scan(Details(quartos, suites, banheiros, vagas, area), found, false);
      i := i + 1;
    }
    d := Details(quartos, suites, banheiros, vagas, area);
  }

  // ---------------------------------------------------------------------------
  // Properties of the details loop
  // ---------------------------------------------------------------------------

  /** Texts after the eighth are never read. */
  lemma OnlyFirstEight(texts: seq<string>, more: seq<string>)
    requires |texts| >= MaxDetailTexts
    ensures DetailsOf(texts + more) == DetailsOf(texts)
  {
    assert (texts + more)[..MaxDetailTexts] == texts[..MaxDetailTexts];
  }

  /**
   * One text feeds at most the category of the branch it takes: every other
   * figure is left alone, and the found set grows by that category at most.
   */
  lemma StepTouchesChosen(texto: string, s: Scan)
    ensures var r := Step(texto, s);
      var c := Chosen(texto, s.found);
      (c.None? ==> r == s)
      && (c.Some? ==> s.found <= r.found <= s.found + {c.value})
      && (c != Some(Rooms) ==> r.details.rooms == s.details.rooms)
      && (c != Some(Suites) ==> r.details.suites == s.details.suites)
      && (c != Some(Bathrooms) ==> r.details.bathrooms == s.details.bathrooms)
      && (c != Some(Parking) ==> r.details.parking == s.details.parking)
      && (c != Some(Area) ==> r.details.area == s.details.area)
  {
  }

  /** The branch taken is never that of a category already found. */
  lemma ChosenIsNew(texto: string, found: set<Category>)
    ensures Chosen(texto, found).Some? ==> Chosen(texto, found).value !in found
  {
  }

  /** A step keeps the figures consistent with the found set. */
  lemma StepConsistent(texto: string, s: Scan)
    requires Consistent(s.details, s.found)
    ensures Consistent(Step(texto, s).details, Step(texto, s).found)
  {
    StepTouchesChosen(texto, s);
    match Chosen(texto, s.found)
    case None =>
    case Some(Rooms) =>
    case Some(Suites) =>
    case Some(Bathrooms) =>
    case Some(Parking) =>
    case Some(Area) =>
  }

  /** A text mentioning "suíte" never gives the bathroom count. */
  lemma NoBathroomsFromSuite(texto: string, s: Scan)
    requires Contains(texto, "suíte")
    ensures Step(texto, s).details.bathrooms == s.details.bathrooms
  {
  }

  /** A parking count comes from the parking branch and is the number the parking search reads. */
  lemma ParkingFromParkingWords(texto: string, s: Scan)
    requires Step(texto, s).details.parking != s.details.parking
    ensures Chosen(texto, s.found) == Some(Parking)
    ensures Contains(texto, "vaga") || Contains(texto, "garagem")
    ensures Step(texto, s).details.parking == ParkingNumber(texto)
  {
  }

  /** The number read by the parking search is a run of digits followed by "vaga", "vagas" or "garagem". */
  lemma ParkingNumberFollowed(texto: string)
    requires ParkingNumber(texto).Some?
    ensures exists i, e ::
      (0 <= i < e <= |texto| && AllDigits(texto[i..e]) && FollowedBy(texto, e, ParkingWords)
       && ParkingNumber(texto) == Some(ParseDigits(texto[i..e])))
  {
    FindRunFollowed(texto, 0, Digits, ParkingWords);
  }

  /** A run found by the search occurs in the text and is followed by one of the words. */
  lemma {:induction false} FindRunFollowed(s: string, from: nat, k: CharClass, words: seq<string>)
    requires from <= |s|
    requires forall w :: w in words ==> |w| > 0 && !InClass(w[0], k) && !IsSpace(w[0])
    ensures FindRun(s, from, k, words).Some? ==>
      exists i, e :: from <= i < e <= |s| && s[i..e] == FindRun(s, from, k, words).value && FollowedBy(s, e, words)
    decreases |s| - from
  {
    if from < |s| {
      if InClass(s[from], k) {
        var e := RunEnd(s, from, k);
        if !FollowedBy(s, e, words) {
          FindRunFollowed(s, e, k, words);
        }
      } else {
        FindRunFollowed(s, from + 1, k, words);
      }
    }
  }

  /**
   * The area comes from a text with "m²" and "útil", or with "m²" and "total"
   * while no area was read; once read it is never replaced.
   */
  lemma AreaSources(texto: string, s: Scan)
    requires Consistent(s.details, s.found)
    ensures var r := Step(texto, s);
      r.details.area != s.details.area ==>
        s.details.area.None? && Area !in s.found && Contains(texto, "m²")
        && (Contains(texto, "útil") || Contains(texto, "total"))
  {
  }

  /** Over the whole loop, a category found early keeps the figure it was given. */
  lemma {:induction false} FirstMatchWins(texts: seq<string>, s: Scan)
    requires Consistent(s.details, s.found)
    ensures var r := Run(texts, s);
      Consistent(r.details, r.found) && s.found <= r.found
      && (Rooms in s.found ==> r.details.rooms == s.details.rooms)
      && (Suites in s.found ==> r.details.suites == s.details.suites)
      && (Bathrooms in s.found ==> r.details.bathrooms == s.details.bathrooms)
      && (Parking in s.found ==> r.details.parking == s.details.parking)
      && (Area in s.found ==> r.details.area == s.details.area)
    decreases |texts|
  {
    if |texts| > 0 && !s.aborted {
      StepTouchesChosen(texts[0], s);
      ChosenIsNew(texts[0], s.found);
      StepConsistent(texts[0], s);
      FirstMatchWins(texts[1..], Step(texts[0], s));
    }
  }
}
