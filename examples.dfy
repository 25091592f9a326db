/**
  The expectations of the data providers in tests/plugin/test-ip-validator.php,
  stated as lemmas about the model: each `ensures` is one row of a provider.
 */
module ValidatorExamples {
  import opened Wrappers
  import Strings
  import Ipv4
  import opened IpValidator

  // ---------------------------------------------------------------------------
  // Building blocks

  /** Four groups joined by dots. */
  lemma JoinFour(g0: string, g1: string, g2: string, g3: string)
    ensures Strings.Join([g0, g1, g2, g3], '.') == g0 + "." + g1 + "." + g2 + "." + g3
  {
    assert [g0, g1, g2, g3][1..] == [g1, g2, g3];
    assert [g1, g2, g3][1..] == [g2, g3];
    assert [g2, g3][1..] == [g3];
    assert Strings.Join([g2, g3], '.') == g2 + "." + g3;
    assert Strings.Join([g1, g2, g3], '.') == g1 + "." + (g2 + "." + g3);
  }

  /** A text that is four dot-free groups joined by dots splits into them. */
  lemma Groups(s: string, g0: string, g1: string, g2: string, g3: string)
    requires '.' !in g0 && '.' !in g1 && '.' !in g2 && '.' !in g3
    requires s == g0 + "." + g1 + "." + g2 + "." + g3
    ensures Strings.Split(s, '.') == [g0, g1, g2, g3]
  {
    var g := [g0, g1, g2, g3];
    assert forall i :: 0 <= i < |g| ==> '.' !in g[i];
    Strings.SplitJoin(g, '.');
    JoinFour(g0, g1, g2, g3);
  }

  /** Four dot-joined groups of which the last is no group are no address. */
  lemma LastGroupRejected(s: string, g0: string, g1: string, g2: string, g3: string)
    requires '.' !in g0 && '.' !in g1 && '.' !in g2 && '.' !in g3
    requires s == g0 + "." + g1 + "." + g2 + "." + g3 && Ipv4.ParseOctet(g3).None?
    ensures !IsValidIpAddress(s)
  {
    Groups(s, g0, g1, g2, g3);
  }

  /** A text holding a character other than a digit or a dot is no address. */
  lemma ForeignCharNoAddress(s: string, c: char)
    requires c in s && !Ipv4.IsDigit(c) && c != '.'
    ensures !IsValidIpAddress(s)
  {
    if IsValidIpAddress(s) {
      Ipv4.AddressAlphabet(s, c);
    }
  }

  /** Two dash-free texts joined by a dash split into them. */
  lemma Dash(s: string, a: string, b: string)
    requires '-' !in a && '-' !in b && s == a + "-" + b
    ensures Strings.Split(s, '-') == [a, b]
  {
    assert s == a + ['-'] + b;
    Strings.SplitAround(a, '-', b);
    Strings.SplitWithoutSeparator(a, '-');
    Strings.SplitWithoutSeparator(b, '-');
  }

  /** A leading dash splits off an empty first piece. */
  lemma LeadingDash(t: string)
    ensures Strings.Split("-" + t, '-') == [""] + Strings.Split(t, '-')
  {
    assert "-" + t == "" + ['-'] + t;
    Strings.SplitAround("", '-', t);
  }

  /** Two addresses joined by a dash are a range exactly when the first is the
      lower one, and that range stands for the interval between them. */
  lemma RangeText(s: string, lower: string, upper: string)
    requires IsValidIpAddress(lower) && IsValidIpAddress(upper) && s == lower + "-" + upper
    ensures IsValidIpRange(s) <==> IpToLong(lower) < IpToLong(upper)
    ensures IpToLong(lower) < IpToLong(upper) ==> ParseEntry(s) == Some(Range(IpToLong(lower), IpToLong(upper)))
  {
    if '-' in lower { ForeignCharNoAddress(lower, '-'); }
    if '-' in upper { ForeignCharNoAddress(upper, '-'); }
    Dash(s, lower, upper);
    assert '-' in s by { assert s[|lower|] == '-'; }
    ForeignCharNoAddress(s, '-');
  }

  /** The text `a.b.c.d` of four group values, each in plain decimal: how the
      tests write their addresses. */
  function Ip(a: nat, b: nat, c: nat, d: nat): (s: string)
    requires a < 256 && b < 256 && c < 256 && d < 256
    ensures s == Ipv4.FormatOctet(a) + "." + Ipv4.FormatOctet(b) + "." + Ipv4.FormatOctet(c) + "." + Ipv4.FormatOctet(d)
  {
    JoinFour(Ipv4.FormatOctet(a), Ipv4.FormatOctet(b), Ipv4.FormatOctet(c), Ipv4.FormatOctet(d));
    Ipv4.OctetsOfCombine(a, b, c, d);
    Ipv4.FormatAddress(Ipv4.Combine(a, b, c, d))
  }

  /** Such a text is an address whose value the four groups spell. */
  lemma IpFacts(a: nat, b: nat, c: nat, d: nat)
    requires a < 256 && b < 256 && c < 256 && d < 256
    ensures IsValidIpAddress(Ip(a, b, c, d)) && IpToLong(Ip(a, b, c, d)) == Ipv4.Combine(a, b, c, d)
    ensures ParseEntry(Ip(a, b, c, d)) == Some(Address(Ipv4.Combine(a, b, c, d)))
  {
    Ipv4.OctetsOfCombine(a, b, c, d);
    Ipv4.AddressRoundTrip(Ipv4.Combine(a, b, c, d));
  }

  /** A text without a `-` is no range. */
  lemma NoDashNoRange(s: string)
    requires '-' !in s
    ensures !IsValidIpRange(s)
  {
    Strings.SplitWithoutSeparator(s, '-');
  }

  // ---------------------------------------------------------------------------
  // ip_address_validation_provider (lines 105-117)

  lemma AddressRow107()
    ensures !IsValidIpAddress("")
  {
    EmptyIsNoEntry();
  }

  lemma AddressRow108()
    ensures !IsValidIpAddress(" ")
  {
    ForeignCharNoAddress(" ", ' ');
  }

  lemma AddressRow109()
    ensures IsValidIpAddress(Ip(2, 1, 1, 1))
  {
    IpFacts(2, 1, 1, 1);
  }

  lemma AddressRow110()
    ensures IsValidIpAddress(Ip(2, 1, 1, 254))
  {
    IpFacts(2, 1, 1, 254);
  }

  lemma AddressRow111()
    ensures !IsValidIpAddress("2.1.1.354")
  {
    assert Ipv4.ParseOctet("354").None? by { Ipv4.DecimalOfThree("354"); }
    LastGroupRejected("2.1.1.354", "2", "1", "1", "354");
  }

  lemma AddressRow112()
    ensures !IsValidIpAddress("2.1.1.1-2.1.1.5")
  {
    ForeignCharNoAddress("2.1.1.1-2.1.1.5", '-');
  }

  lemma AddressRow113()
    ensures !IsValidIpAddress("2.1.1.5,2.1.1.1")
  {
    ForeignCharNoAddress("2.1.1.5,2.1.1.1", ',');
  }

  lemma AddressRow114()
    ensures !IsValidIpAddress("1.1.1.1,2.1.1.1")
  {
    ForeignCharNoAddress("1.1.1.1,2.1.1.1", ',');
  }

  lemma AddressRow115()
    ensures !IsValidIpAddress("1.1.1.1,2.1.1.1-2.1.1.5")
  {
    ForeignCharNoAddress("1.1.1.1,2.1.1.1-2.1.1.5", ',');
  }

  // ---------------------------------------------------------------------------
  // ip_range_validation_provider (lines 124-139)

  lemma RangeRow126()
    ensures !IsValidIpRange("")
  {
    EmptyIsNoEntry();
  }

  lemma RangeRow127()
    ensures !IsValidIpRange("-")
  {
    Dash("-", "", "");
    EmptyIsNoEntry();
  }

  lemma RangeRow128()
    ensures !IsValidIpRange(" ")
  {
    NoDashNoRange(" ");
  }

  lemma RangeRow129()
    ensures !IsValidIpRange(" -")
  {
    Dash(" -", " ", "");
    ForeignCharNoAddress(" ", ' ');
  }

  lemma RangeRow130()
    ensures !IsValidIpRange("1.1.1.100")
  {
    NoDashNoRange("1.1.1.100");
  }

  lemma RangeRow131()
    ensures !IsValidIpRange("2.1.1.1-")
  {
    Dash("2.1.1.1-", "2.1.1.1", "");
    EmptyIsNoEntry();
  }

  lemma RangeRow132()
    ensures !IsValidIpRange("-2.1.1.1")
  {
    Dash("-2.1.1.1", "", "2.1.1.1");
    EmptyIsNoEntry();
  }

  lemma RangeRow133()
    ensures !IsValidIpRange("--2.1.1.1")
  {
    LeadingDash("-" + "2.1.1.1");
    LeadingDash("2.1.1.1");
    Strings.SplitWithoutSeparator("2.1.1.1", '-');
    assert "--2.1.1.1" == "-" + ("-" + "2.1.1.1");
  }

  lemma RangeRow134()
    ensures IsValidIpRange(Ip(2, 1, 1, 1) + "-" + Ip(2, 1, 1, 5))
  {
    IpFacts(2, 1, 1, 1);
    IpFacts(2, 1, 1, 5);
    RangeText(Ip(2, 1, 1, 1) + "-" + Ip(2, 1, 1, 5), Ip(2, 1, 1, 1), Ip(2, 1, 1, 5));
  }

  lemma RangeRow135()
    ensures !IsValidIpRange(Ip(2, 1, 1, 5) + "-" + Ip(2, 1, 1, 1))
  {
    IpFacts(2, 1, 1, 5);
    IpFacts(2, 1, 1, 1);
    RangeText(Ip(2, 1, 1, 5) + "-" + Ip(2, 1, 1, 1), Ip(2, 1, 1, 5), Ip(2, 1, 1, 1));
  }

  lemma RangeRow136()
    ensures !IsValidIpRange("2.1.1.1-d.1.1.5")
  {
    Dash("2.1.1.1-d.1.1.5", "2.1.1.1", "d.1.1.5");
    ForeignCharNoAddress("d.1.1.5", 'd');
  }

  lemma RangeRow137()
    ensures !IsValidIpRange("2.1.1.5,2.1.1.1")
  {
    NoDashNoRange("2.1.1.5,2.1.1.1");
  }

  // ---------------------------------------------------------------------------
  // ip_address_within_range_provider (lines 146-155); the test splits the
  // range text on `-` and passes its two halves

  lemma WithinRangeRow148()
    ensures IsValidIpAddress(Ip(2, 2, 2, 100)) && IsValidIpAddress(Ip(1, 1, 1, 100)) && IsValidIpAddress(Ip(1, 1, 1, 150))
      && !IsIpAddressWithinRange(Ip(2, 2, 2, 100), Ip(1, 1, 1, 100), Ip(1, 1, 1, 150))
  {
    IpFacts(2, 2, 2, 100);
    IpFacts(1, 1, 1, 100);
    IpFacts(1, 1, 1, 150);
  }

  lemma WithinRangeRow149()
    ensures IsValidIpAddress(Ip(2, 2, 2, 100)) && IsValidIpAddress(Ip(2, 2, 2, 50)) && IsValidIpAddress(Ip(2, 2, 2, 100))
      && IsIpAddressWithinRange(Ip(2, 2, 2, 100), Ip(2, 2, 2, 50), Ip(2, 2, 2, 100))
  {
    IpFacts(2, 2, 2, 100);
    IpFacts(2, 2, 2, 50);
  }

  lemma WithinRangeRow150()
    ensures IsValidIpAddress(Ip(2, 2, 2, 100)) && IsValidIpAddress(Ip(2, 2, 2, 50)) && IsValidIpAddress(Ip(2, 2, 2, 150))
      && IsIpAddressWithinRange(Ip(2, 2, 2, 100), Ip(2, 2, 2, 50), Ip(2, 2, 2, 150))
  {
    IpFacts(2, 2, 2, 100);
    IpFacts(2, 2, 2, 50);
    IpFacts(2, 2, 2, 150);
  }

  lemma WithinRangeRow151()
    ensures IsValidIpAddress(Ip(2, 2, 2, 100)) && IsValidIpAddress(Ip(2, 2, 2, 100)) && IsValidIpAddress(Ip(2, 2, 2, 150))
      && IsIpAddressWithinRange(Ip(2, 2, 2, 100), Ip(2, 2, 2, 100), Ip(2, 2, 2, 150))
  {
    IpFacts(2, 2, 2, 100);
    IpFacts(2, 2, 2, 150);
  }

  lemma WithinRangeRow152()
    ensures IsValidIpAddress(Ip(2, 2, 2, 100)) && IsValidIpAddress(Ip(2, 2, 2, 150)) && IsValidIpAddress(Ip(2, 2, 2, 200))
      && !IsIpAddressWithinRange(Ip(2, 2, 2, 100), Ip(2, 2, 2, 150), Ip(2, 2, 2, 200))
  {
    IpFacts(2, 2, 2, 100);
    IpFacts(2, 2, 2, 150);
    IpFacts(2, 2, 2, 200);
  }

  lemma WithinRangeRow153()
    ensures IsValidIpAddress(Ip(2, 2, 2, 100)) && IsValidIpAddress(Ip(3, 3, 3, 50)) && IsValidIpAddress(Ip(3, 3, 3, 100))
      && !IsIpAddressWithinRange(Ip(2, 2, 2, 100), Ip(3, 3, 3, 50), Ip(3, 3, 3, 100))
  {
    IpFacts(2, 2, 2, 100);
    IpFacts(3, 3, 3, 50);
    IpFacts(3, 3, 3, 100);
  }

  // ---------------------------------------------------------------------------
  // do_ip_ranges_overlap_provider (lines 162-196)

  lemma RangesOverlapRow166()
    ensures DoIpRangesOverlap(Ip(10, 1, 1, 90), Ip(10, 1, 1, 95), Ip(10, 1, 1, 100), Ip(10, 1, 1, 115)) == False
  {
    IpFacts(10, 1, 1, 90);
    IpFacts(10, 1, 1, 95);
    IpFacts(10, 1, 1, 100);
    IpFacts(10, 1, 1, 115);
  }

  lemma RangesOverlapRow170()
    ensures DoIpRangesOverlap(Ip(10, 1, 1, 90), Ip(10, 1, 1, 100), Ip(10, 1, 1, 100), Ip(10, 1, 1, 115)) == True
  {
    IpFacts(10, 1, 1, 90);
    IpFacts(10, 1, 1, 100);
    IpFacts(10, 1, 1, 115);
  }

  lemma RangesOverlapRow171()
    ensures DoIpRangesOverlap(Ip(10, 1, 1, 90), Ip(10, 1, 1, 110), Ip(10, 1, 1, 100), Ip(10, 1, 1, 115)) == True
  {
    IpFacts(10, 1, 1, 90);
    IpFacts(10, 1, 1, 110);
    IpFacts(10, 1, 1, 100);
    IpFacts(10, 1, 1, 115);
  }

  lemma RangesOverlapRow172()
    ensures DoIpRangesOverlap(Ip(10, 1, 1, 90), Ip(10, 1, 1, 115), Ip(10, 1, 1, 100), Ip(10, 1, 1, 115)) == True
  {
    IpFacts(10, 1, 1, 90);
    IpFacts(10, 1, 1, 115);
    IpFacts(10, 1, 1, 100);
  }

  lemma RangesOverlapRow173()
    ensures DoIpRangesOverlap(Ip(10, 1, 1, 90), Ip(10, 1, 1, 120), Ip(10, 1, 1, 100), Ip(10, 1, 1, 115)) == True
  {
    IpFacts(10, 1, 1, 90);
    IpFacts(10, 1, 1, 120);
    IpFacts(10, 1, 1, 100);
    IpFacts(10, 1, 1, 115);
  }

  lemma RangesOverlapRow177()
    ensures DoIpRangesOverlap(Ip(10, 1, 1, 100), Ip(10, 1, 1, 105), Ip(10, 1, 1, 100), Ip(10, 1, 1, 115)) == True
  {
    IpFacts(10, 1, 1, 100);
    IpFacts(10, 1, 1, 105);
    IpFacts(10, 1, 1, 115);
  }

  lemma RangesOverlapRow178()
    ensures DoIpRangesOverlap(Ip(10, 1, 1, 100), Ip(10, 1, 1, 115), Ip(10, 1, 1, 100), Ip(10, 1, 1, 115)) == True
  {
    IpFacts(10, 1, 1, 100);
    IpFacts(10, 1, 1, 115);
  }

  lemma RangesOverlapRow179()
    ensures DoIpRangesOverlap(Ip(10, 1, 1, 100), Ip(10, 1, 1, 120), Ip(10, 1, 1, 100), Ip(10, 1, 1, 115)) == True
  {
    IpFacts(10, 1, 1, 100);
    IpFacts(10, 1, 1, 120);
    IpFacts(10, 1, 1, 115);
  }

  lemma RangesOverlapRow183()
    ensures DoIpRangesOverlap(Ip(10, 1, 1, 101), Ip(10, 1, 1, 105), Ip(10, 1, 1, 100), Ip(10, 1, 1, 115)) == True
  {
    IpFacts(10, 1, 1, 101);
    IpFacts(10, 1, 1, 105);
    IpFacts(10, 1, 1, 100);
    IpFacts(10, 1, 1, 115);
  }

  lemma RangesOverlapRow184()
    ensures DoIpRangesOverlap(Ip(10, 1, 1, 101), Ip(10, 1, 1, 115), Ip(10, 1, 1, 100), Ip(10, 1, 1, 115)) == True
  {
    IpFacts(10, 1, 1, 101);
    IpFacts(10, 1, 1, 115);
    IpFacts(10, 1, 1, 100);
  }

  lemma RangesOverlapRow185()
    ensures DoIpRangesOverlap(Ip(10, 1, 1, 101), Ip(10, 1, 1, 120), Ip(10, 1, 1, 100), Ip(10, 1, 1, 115)) == True
  {
    IpFacts(10, 1, 1, 101);
    IpFacts(10, 1, 1, 120);
    IpFacts(10, 1, 1, 100);
    IpFacts(10, 1, 1, 115);
  }

  lemma RangesOverlapRow189()
    ensures DoIpRangesOverlap(Ip(10, 1, 1, 115), Ip(10, 1, 1, 120), Ip(10, 1, 1, 100), Ip(10, 1, 1, 115)) == True
  {
    IpFacts(10, 1, 1, 115);
    IpFacts(10, 1, 1, 120);
    IpFacts(10, 1, 1, 100);
  }

  lemma RangesOverlapRow193()
    ensures DoIpRangesOverlap(Ip(10, 1, 1, 116), Ip(10, 1, 1, 120), Ip(10, 1, 1, 100), Ip(10, 1, 1, 115)) == False
  {
    IpFacts(10, 1, 1, 116);
    IpFacts(10, 1, 1, 120);
    IpFacts(10, 1, 1, 100);
    IpFacts(10, 1, 1, 115);
  }

  lemma RangesOverlapRow194()
    ensures DoIpRangesOverlap(Ip(10, 1, 1, 120), Ip(10, 1, 1, 125), Ip(10, 1, 1, 100), Ip(10, 1, 1, 115)) == False
  {
    IpFacts(10, 1, 1, 120);
    IpFacts(10, 1, 1, 125);
    IpFacts(10, 1, 1, 100);
    IpFacts(10, 1, 1, 115);
  }

  // ---------------------------------------------------------------------------
  // field_overlapping_ips_validation_provider (lines 203-258)

  /** The haystack of lines 204-207. */
  function Haystack(): seq<string>
  {
    [Ip(1, 1, 1, 10), Ip(10, 1, 1, 100) + "-" + Ip(10, 1, 1, 115)]
  }

  /** Whether two non-empty intervals share an address. */
  predicate Meets(a: Entry, b: Entry)
  {
    Low(a) <= High(b) && Low(b) <= High(a)
  }

  /** The two haystack values and the entries they stand for. */
  lemma HaystackEntries()
    ensures IsEntryText(Haystack()[0]) && ParseEntry(Haystack()[0]).value == Address(Ipv4.Combine(1, 1, 1, 10))
    ensures IsEntryText(Haystack()[1])
      && ParseEntry(Haystack()[1]).value == Range(Ipv4.Combine(10, 1, 1, 100), Ipv4.Combine(10, 1, 1, 115))
  {
    IpFacts(1, 1, 1, 10);
    IpFacts(10, 1, 1, 100);
    IpFacts(10, 1, 1, 115);
    RangeText(Haystack()[1], Ip(10, 1, 1, 100), Ip(10, 1, 1, 115));
  }

  /** Against that haystack a valid needle matches exactly when its interval
      meets 1.1.1.10 or 10.1.1.100-10.1.1.115. */
  lemma HaystackMeaning(needle: string)
    requires IsEntryText(needle)
    ensures DoIpFieldsOverlap(needle, Haystack()) == FromBool(
      || Meets(ParseEntry(needle).value, Address(Ipv4.Combine(1, 1, 1, 10)))
      || Meets(ParseEntry(needle).value, Range(Ipv4.Combine(10, 1, 1, 100), Ipv4.Combine(10, 1, 1, 115))))
  {
    var hs := Haystack();
    HaystackEntries();
    var e, h0, h1 := ParseEntry(needle).value, ParseEntry(hs[0]).value, ParseEntry(hs[1]).value;
    assert forall i :: 0 <= i < |hs| ==> IsEntryText(hs[i]) by {
      forall i | 0 <= i < |hs| ensures IsEntryText(hs[i]) { assert i == 0 || i == 1; }
    }
    FieldsOverlapIsIntersection(needle, hs);
    ParsedEntryIsInterval(needle);
    IntersectIsIntervalTest(e, h0);
    IntersectIsIntervalTest(e, h1);
    if Meets(e, h0) || Meets(e, h1) {
      var i := if Meets(e, h0) then 0 else 1;
      assert Intersect(e, ParseEntry(hs[i]).value);
    } else {
      forall i | 0 <= i < |hs| ensures !Intersect(e, ParseEntry(hs[i]).value) {
        assert i == 0 || i == 1;
      }
    }
  }

  lemma FieldsOverlapRow211()
    ensures DoIpFieldsOverlap(Ip(1, 1, 1, 9), Haystack()) == False
  {
    IpFacts(1, 1, 1, 9);
    HaystackMeaning(Ip(1, 1, 1, 9));
  }

  lemma FieldsOverlapRow212()
    ensures DoIpFieldsOverlap(Ip(1, 1, 1, 10), Haystack()) == True
  {
    IpFacts(1, 1, 1, 10);
    HaystackMeaning(Ip(1, 1, 1, 10));
  }

  lemma FieldsOverlapRow213()
    ensures DoIpFieldsOverlap(Ip(1, 1, 1, 21), Haystack()) == False
  {
    IpFacts(1, 1, 1, 21);
    HaystackMeaning(Ip(1, 1, 1, 21));
  }

  lemma FieldsOverlapRow216()
    ensures DoIpFieldsOverlap(Ip(10, 1, 1, 99), Haystack()) == False
  {
    IpFacts(10, 1, 1, 99);
    HaystackMeaning(Ip(10, 1, 1, 99));
  }

  lemma FieldsOverlapRow217()
    ensures DoIpFieldsOverlap(Ip(10, 1, 1, 110), Haystack()) == True
  {
    IpFacts(10, 1, 1, 110);
    HaystackMeaning(Ip(10, 1, 1, 110));
  }

  lemma FieldsOverlapRow218()
    ensures DoIpFieldsOverlap(Ip(10, 1, 1, 113), Haystack()) == True
  {
    IpFacts(10, 1, 1, 113);
    HaystackMeaning(Ip(10, 1, 1, 113));
  }

  lemma FieldsOverlapRow219()
    ensures DoIpFieldsOverlap(Ip(10, 1, 1, 115), Haystack()) == True
  {
    IpFacts(10, 1, 1, 115);
    HaystackMeaning(Ip(10, 1, 1, 115));
  }

  lemma FieldsOverlapRow220()
    ensures DoIpFieldsOverlap(Ip(10, 1, 1, 116), Haystack()) == False
  {
    IpFacts(10, 1, 1, 116);
    HaystackMeaning(Ip(10, 1, 1, 116));
  }

  lemma FieldsOverlapRow223()
    ensures DoIpFieldsOverlap(Ip(1, 1, 1, 1) + "-" + Ip(1, 1, 1, 9), Haystack()) == False
  {
    IpFacts(1, 1, 1, 1);
    IpFacts(1, 1, 1, 9);
    RangeText(Ip(1, 1, 1, 1) + "-" + Ip(1, 1, 1, 9), Ip(1, 1, 1, 1), Ip(1, 1, 1, 9));
    HaystackMeaning(Ip(1, 1, 1, 1) + "-" + Ip(1, 1, 1, 9));
  }

  lemma FieldsOverlapRow224()
    ensures DoIpFieldsOverlap(Ip(1, 1, 1, 1) + "-" + Ip(1, 1, 1, 10), Haystack()) == True
  {
    IpFacts(1, 1, 1, 1);
    IpFacts(1, 1, 1, 10);
    RangeText(Ip(1, 1, 1, 1) + "-" + Ip(1, 1, 1, 10), Ip(1, 1, 1, 1), Ip(1, 1, 1, 10));
    HaystackMeaning(Ip(1, 1, 1, 1) + "-" + Ip(1, 1, 1, 10));
  }

  lemma FieldsOverlapRow225()
    ensures DoIpFieldsOverlap(Ip(1, 1, 1, 1) + "-" + Ip(1, 1, 1, 20), Haystack()) == True
  {
    IpFacts(1, 1, 1, 1);
    IpFacts(1, 1, 1, 20);
    RangeText(Ip(1, 1, 1, 1) + "-" + Ip(1, 1, 1, 20), Ip(1, 1, 1, 1), Ip(1, 1, 1, 20));
    HaystackMeaning(Ip(1, 1, 1, 1) + "-" + Ip(1, 1, 1, 20));
  }

  lemma FieldsOverlapRow226()
    ensures DoIpFieldsOverlap(Ip(1, 1, 1, 9) + "-" + Ip(1, 1, 1, 20), Haystack()) == True
  {
    IpFacts(1, 1, 1, 9);
    IpFacts(1, 1, 1, 20);
    RangeText(Ip(1, 1, 1, 9) + "-" + Ip(1, 1, 1, 20), Ip(1, 1, 1, 9), Ip(1, 1, 1, 20));
    HaystackMeaning(Ip(1, 1, 1, 9) + "-" + Ip(1, 1, 1, 20));
  }

  lemma FieldsOverlapRow227()
    ensures DoIpFieldsOverlap(Ip(1, 1, 1, 10) + "-" + Ip(1, 1, 1, 20), Haystack()) == True
  {
    IpFacts(1, 1, 1, 10);
    IpFacts(1, 1, 1, 20);
    RangeText(Ip(1, 1, 1, 10) + "-" + Ip(1, 1, 1, 20), Ip(1, 1, 1, 10), Ip(1, 1, 1, 20));
    HaystackMeaning(Ip(1, 1, 1, 10) + "-" + Ip(1, 1, 1, 20));
  }

  lemma FieldsOverlapRow228()
    ensures DoIpFieldsOverlap(Ip(1, 1, 1, 11) + "-" + Ip(1, 1, 1, 20), Haystack()) == False
  {
    IpFacts(1, 1, 1, 11);
    IpFacts(1, 1, 1, 20);
    RangeText(Ip(1, 1, 1, 11) + "-" + Ip(1, 1, 1, 20), Ip(1, 1, 1, 11), Ip(1, 1, 1, 20));
    HaystackMeaning(Ip(1, 1, 1, 11) + "-" + Ip(1, 1, 1, 20));
  }

  lemma FieldsOverlapRow233()
    ensures DoIpFieldsOverlap(Ip(10, 1, 1, 90) + "-" + Ip(10, 1, 1, 95), Haystack()) == False
  {
    IpFacts(10, 1, 1, 90);
    IpFacts(10, 1, 1, 95);
    RangeText(Ip(10, 1, 1, 90) + "-" + Ip(10, 1, 1, 95), Ip(10, 1, 1, 90), Ip(10, 1, 1, 95));
    HaystackMeaning(Ip(10, 1, 1, 90) + "-" + Ip(10, 1, 1, 95));
  }

  lemma FieldsOverlapRow236()
    ensures DoIpFieldsOverlap(Ip(10, 1, 1, 90) + "-" + Ip(10, 1, 1, 100), Haystack()) == True
  {
    IpFacts(10, 1, 1, 90);
    IpFacts(10, 1, 1, 100);
    RangeText(Ip(10, 1, 1, 90) + "-" + Ip(10, 1, 1, 100), Ip(10, 1, 1, 90), Ip(10, 1, 1, 100));
    HaystackMeaning(Ip(10, 1, 1, 90) + "-" + Ip(10, 1, 1, 100));
  }

  lemma FieldsOverlapRow237()
    ensures DoIpFieldsOverlap(Ip(10, 1, 1, 90) + "-" + Ip(10, 1, 1, 110), Haystack()) == True
  {
    IpFacts(10, 1, 1, 90);
    IpFacts(10, 1, 1, 110);
    RangeText(Ip(10, 1, 1, 90) + "-" + Ip(10, 1, 1, 110), Ip(10, 1, 1, 90), Ip(10, 1, 1, 110));
    HaystackMeaning(Ip(10, 1, 1, 90) + "-" + Ip(10, 1, 1, 110));
  }

  lemma FieldsOverlapRow238()
    ensures DoIpFieldsOverlap(Ip(10, 1, 1, 90) + "-" + Ip(10, 1, 1, 115), Haystack()) == True
  {
    IpFacts(10, 1, 1, 90);
    IpFacts(10, 1, 1, 115);
    RangeText(Ip(10, 1, 1, 90) + "-" + Ip(10, 1, 1, 115), Ip(10, 1, 1, 90), Ip(10, 1, 1, 115));
    HaystackMeaning(Ip(10, 1, 1, 90) + "-" + Ip(10, 1, 1, 115));
  }

  lemma FieldsOverlapRow239()
    ensures DoIpFieldsOverlap(Ip(10, 1, 1, 90) + "-" + Ip(10, 1, 1, 120), Haystack()) == True
  {
    IpFacts(10, 1, 1, 90);
    IpFacts(10, 1, 1, 120);
    RangeText(Ip(10, 1, 1, 90) + "-" + Ip(10, 1, 1, 120), Ip(10, 1, 1, 90), Ip(10, 1, 1, 120));
    HaystackMeaning(Ip(10, 1, 1, 90) + "-" + Ip(10, 1, 1, 120));
  }

  lemma FieldsOverlapRow242()
    ensures DoIpFieldsOverlap(Ip(10, 1, 1, 100) + "-" + Ip(10, 1, 1, 105), Haystack()) == True
  {
    IpFacts(10, 1, 1, 100);
    IpFacts(10, 1, 1, 105);
    RangeText(Ip(10, 1, 1, 100) + "-" + Ip(10, 1, 1, 105), Ip(10, 1, 1, 100), Ip(10, 1, 1, 105));
    HaystackMeaning(Ip(10, 1, 1, 100) + "-" + Ip(10, 1, 1, 105));
  }

  lemma FieldsOverlapRow243()
    ensures DoIpFieldsOverlap(Ip(10, 1, 1, 100) + "-" + Ip(10, 1, 1, 115), Haystack()) == True
  {
    IpFacts(10, 1, 1, 100);
    IpFacts(10, 1, 1, 115);
    RangeText(Ip(10, 1, 1, 100) + "-" + Ip(10, 1, 1, 115), Ip(10, 1, 1, 100), Ip(10, 1, 1, 115));
    HaystackMeaning(Ip(10, 1, 1, 100) + "-" + Ip(10, 1, 1, 115));
  }

  lemma FieldsOverlapRow244()
    ensures DoIpFieldsOverlap(Ip(10, 1, 1, 100) + "-" + Ip(10, 1, 1, 120), Haystack()) == True
  {
    IpFacts(10, 1, 1, 100);
    IpFacts(10, 1, 1, 120);
    RangeText(Ip(10, 1, 1, 100) + "-" + Ip(10, 1, 1, 120), Ip(10, 1, 1, 100), Ip(10, 1, 1, 120));
    HaystackMeaning(Ip(10, 1, 1, 100) + "-" + Ip(10, 1, 1, 120));
  }

  lemma FieldsOverlapRow247()
    ensures DoIpFieldsOverlap(Ip(10, 1, 1, 101) + "-" + Ip(10, 1, 1, 105), Haystack()) == True
  {
    IpFacts(10, 1, 1, 101);
    IpFacts(10, 1, 1, 105);
    RangeText(Ip(10, 1, 1, 101) + "-" + Ip(10, 1, 1, 105), Ip(10, 1, 1, 101), Ip(10, 1, 1, 105));
    HaystackMeaning(Ip(10, 1, 1, 101) + "-" + Ip(10, 1, 1, 105));
  }

  lemma FieldsOverlapRow248()
    ensures DoIpFieldsOverlap(Ip(10, 1, 1, 101) + "-" + Ip(10, 1, 1, 115), Haystack()) == True
  {
    IpFacts(10, 1, 1, 101);
    IpFacts(10, 1, 1, 115);
    RangeText(Ip(10, 1, 1, 101) + "-" + Ip(10, 1, 1, 115), Ip(10, 1, 1, 101), Ip(10, 1, 1, 115));
    HaystackMeaning(Ip(10, 1, 1, 101) + "-" + Ip(10, 1, 1, 115));
  }

  lemma FieldsOverlapRow249()
    ensures DoIpFieldsOverlap(Ip(10, 1, 1, 101) + "-" + Ip(10, 1, 1, 120), Haystack()) == True
  {
    IpFacts(10, 1, 1, 101);
    IpFacts(10, 1, 1, 120);
    RangeText(Ip(10, 1, 1, 101) + "-" + Ip(10, 1, 1, 120), Ip(10, 1, 1, 101), Ip(10, 1, 1, 120));
    HaystackMeaning(Ip(10, 1, 1, 101) + "-" + Ip(10, 1, 1, 120));
  }

  lemma FieldsOverlapRow252()
    ensures DoIpFieldsOverlap(Ip(10, 1, 1, 115) + "-" + Ip(10, 1, 1, 120), Haystack()) == True
  {
    IpFacts(10, 1, 1, 115);
    IpFacts(10, 1, 1, 120);
    RangeText(Ip(10, 1, 1, 115) + "-" + Ip(10, 1, 1, 120), Ip(10, 1, 1, 115), Ip(10, 1, 1, 120));
    HaystackMeaning(Ip(10, 1, 1, 115) + "-" + Ip(10, 1, 1, 120));
  }

  lemma FieldsOverlapRow255()
    ensures DoIpFieldsOverlap(Ip(10, 1, 1, 116) + "-" + Ip(10, 1, 1, 120), Haystack()) == False
  {
    IpFacts(10, 1, 1, 116);
    IpFacts(10, 1, 1, 120);
    RangeText(Ip(10, 1, 1, 116) + "-" + Ip(10, 1, 1, 120), Ip(10, 1, 1, 116), Ip(10, 1, 1, 120));
    HaystackMeaning(Ip(10, 1, 1, 116) + "-" + Ip(10, 1, 1, 120));
  }

  lemma FieldsOverlapRow256()
    ensures DoIpFieldsOverlap(Ip(10, 1, 1, 120) + "-" + Ip(10, 1, 1, 125), Haystack()) == False
  {
    IpFacts(10, 1, 1, 120);
    IpFacts(10, 1, 1, 125);
    RangeText(Ip(10, 1, 1, 120) + "-" + Ip(10, 1, 1, 125), Ip(10, 1, 1, 120), Ip(10, 1, 1, 125));
    HaystackMeaning(Ip(10, 1, 1, 120) + "-" + Ip(10, 1, 1, 125));
  }
}
