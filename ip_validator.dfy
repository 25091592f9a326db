/**
  The entry engine of plugin/class-ip-validator.php: is a text an IPv4
  address, is it an IPv4 range "A-B", do two ranges overlap, is an address
  inside a range, and does a needle (an address or a range) overlap any
  element of a haystack of such texts. The PHP functions answer `true`,
  `false` or `null` (invalid input); the tri-state is `TriState` here.
 */
module IpValidator {
  import opened Wrappers
  import Strings
  import Ipv4

  /** PHP's `bool|null` result: `null` is `Invalid`. */
  datatype TriState = True | False | Invalid

  function FromBool(b: bool): TriState { if b then True else False }

  /** How every caller reads a tri-state: in a PHP `if`, `null` fails like `false`. */
  predicate Truthy(t: TriState) { t == True }

  // ---------------------------------------------------------------------------
  // Validation (lines 24-50)

  /** `is_valid_ip_address`: the text is a dotted-quad IPv4 address. */
  predicate IsValidIpAddress(ip: string) { Ipv4.ParseAddress(ip).Some? }

  /** `ip2long` of a valid address, as an unsigned number (64-bit PHP). */
  function IpToLong(ip: string): (n: nat)
    requires IsValidIpAddress(ip)
    ensures n < Ipv4.ADDRESS_SPACE
  {
    Ipv4.ParseAddress(ip).value
  }

  /** `is_valid_ip_range`: exactly two `-`-separated parts, both addresses,
      the first strictly below the second. */
  predicate IsValidIpRange(value: string)
  {
    var ips := Strings.Split(value, '-');
    && |ips| == 2
    && IsValidIpAddress(ips[0]) && IsValidIpAddress(ips[1])
    && !(IpToLong(ips[0]) >= IpToLong(ips[1]))
  }

  function RangeLower(value: string): nat
    requires IsValidIpRange(value)
  {
    IpToLong(Strings.Split(value, '-')[0])
  }

  function RangeUpper(value: string): nat
    requires IsValidIpRange(value)
  {
    IpToLong(Strings.Split(value, '-')[1])
  }

  // ---------------------------------------------------------------------------
  // Interval primitives (lines 62-129)

  /** `do_ip_ranges_overlap`: `null` unless all four bounds are addresses, then
      the four boundary checks of the source, in its order. */
  function DoIpRangesOverlap(aLower: string, aUpper: string, bLower: string, bUpper: string): (r: TriState)
    ensures r == Invalid <==>
      !(IsValidIpAddress(aLower) && IsValidIpAddress(aUpper) && IsValidIpAddress(bLower) && IsValidIpAddress(bUpper))
  {
    if !IsValidIpAddress(aLower) || !IsValidIpAddress(aUpper)
       || !IsValidIpAddress(bLower) || !IsValidIpAddress(bUpper) then Invalid
    // needle lower boundary
    else if IpToLong(aLower) >= IpToLong(bLower) && IpToLong(aLower) <= IpToLong(bUpper) then True
    // needle upper boundary
    else if IpToLong(aUpper) >= IpToLong(bLower) && IpToLong(aUpper) <= IpToLong(bUpper) then True
    // haystack lower boundary
    else if IpToLong(bLower) >= IpToLong(aLower) && IpToLong(bLower) <= IpToLong(aUpper) then True
    // haystack upper boundary
    else if IpToLong(bUpper) >= IpToLong(aLower) && IpToLong(bUpper) <= IpToLong(aUpper) then True
    else False
  }

  /** `is_ip_address_within_range`. Its guard against invalid input (line 118)
      is the bare statement `null;`, which returns nothing, so the guard is a
      requires here: every caller passes parts of already validated texts. */
  function IsIpAddressWithinRange(ip: string, lower: string, upper: string): (r: bool)
    requires IsValidIpAddress(ip) && IsValidIpAddress(lower) && IsValidIpAddress(upper)
    ensures r <==> IpToLong(lower) <= IpToLong(ip) <= IpToLong(upper)
  {
    IpToLong(ip) >= IpToLong(lower) && IpToLong(ip) <= IpToLong(upper)
  }

  // ---------------------------------------------------------------------------
  // Needle against haystack (lines 138-192)

  /** The needle is something `do_ip_fields_overlap` accepts (line 139). */
  predicate IsEntryText(s: string) { IsValidIpAddress(s) || IsValidIpRange(s) }

  /** One pass of the `foreach` body (lines 146-188) for one haystack value:
      `True` where the source returns true, `Invalid` where it returns null,
      `False` where it goes on to the next value. */
  function MatchOne(needle: string, haystackValue: string): TriState
  {
    if IsValidIpAddress(needle) then
      if IsValidIpAddress(haystackValue) then
        FromBool(IpToLong(needle) == IpToLong(haystackValue))
      else if IsValidIpRange(haystackValue) then
        var hr := Strings.Split(haystackValue, '-');
        FromBool(IsIpAddressWithinRange(needle, hr[0], hr[1]))
      else Invalid
    else if IsValidIpRange(needle) then
      var nr := Strings.Split(needle, '-');
      if IsValidIpAddress(haystackValue) then
        FromBool(IsIpAddressWithinRange(haystackValue, nr[0], nr[1]))
      else if IsValidIpRange(haystackValue) then
        var hr := Strings.Split(haystackValue, '-');
        FromBool(Truthy(DoIpRangesOverlap(nr[0], nr[1], hr[0], hr[1])))
      else Invalid
    else Invalid
  }

  /** No value of `haystack` before index `k` ends the scan. */
  ghost predicate NoMatchBefore(needle: string, haystack: seq<string>, k: nat)
    requires k <= |haystack|
  {
    forall j :: 0 <= j < k ==> MatchOne(needle, haystack[j]) == False
  }

  /** The scan ends at index `i` with `outcome`: every earlier value moved on. */
  ghost predicate ScanEndsAt(needle: string, haystack: seq<string>, i: nat, outcome: TriState)
  {
    i < |haystack| && MatchOne(needle, haystack[i]) == outcome && NoMatchBefore(needle, haystack, i)
  }

  /** The `foreach` of lines 144-189: stops at the first value that returns,
      with what it returns; `False` when every value moved on. */
  function ScanHaystack(needle: string, haystack: seq<string>): TriState
  {
    if haystack == [] then False
    else
      match MatchOne(needle, haystack[0])
      case True => True
      case Invalid => Invalid
      case False => ScanHaystack(needle, haystack[1..])
  }

  /** The scan's answer is what the first value that ends it returns, and
      `False` only when every value moved on. */
  lemma {:induction false} ScanHaystackEnds(needle: string, haystack: seq<string>)
    ensures var r := ScanHaystack(needle, haystack);
      && (r != False ==> exists i: nat :: ScanEndsAt(needle, haystack, i, r))
      && (r == False ==> NoMatchBefore(needle, haystack, |haystack|))
    decreases |haystack|
  {
    if haystack != [] && MatchOne(needle, haystack[0]) == False {
      var r := ScanHaystack(needle, haystack[1..]);
      ScanHaystackEnds(needle, haystack[1..]);
      ShiftScan(needle, haystack, r);
    } else if haystack != [] {
      assert ScanEndsAt(needle, haystack, 0, MatchOne(needle, haystack[0]));
    }
  }

  /** What the scan of the tail says carries over to the whole haystack when
      its first value moved on. */
  lemma ShiftScan(needle: string, haystack: seq<string>, r: TriState)
    requires haystack != [] && MatchOne(needle, haystack[0]) == False
    requires r != False ==> exists i: nat :: ScanEndsAt(needle, haystack[1..], i, r)
    requires r == False ==> NoMatchBefore(needle, haystack[1..], |haystack| - 1)
    ensures r != False ==> exists i: nat :: ScanEndsAt(needle, haystack, i, r)
    ensures r == False ==> NoMatchBefore(needle, haystack, |haystack|)
  {
    var tail := haystack[1..];
    var k: nat := if r != False then (var i: nat :| ScanEndsAt(needle, tail, i, r); i) else |tail|;
    forall j | 0 <= j < k + 1 ensures MatchOne(needle, haystack[j]) == False {
      if j > 0 { assert haystack[j] == tail[j - 1]; }
    }
    if r != False {
      assert haystack[k + 1] == tail[k];
      assert ScanEndsAt(needle, haystack, k + 1, r);
    }
  }

  /** The scan ends in one place only: the outcome a haystack can end with is unique. */
  lemma ScanEndsOnce(needle: string, haystack: seq<string>, i: nat, o: TriState, j: nat, p: TriState)
    requires o != False && p != False
    requires ScanEndsAt(needle, haystack, i, o) && ScanEndsAt(needle, haystack, j, p)
    ensures i == j && o == p
  {
  }

  /** `do_ip_fields_overlap`: `Invalid` for a needle that is neither an
      address nor a range, otherwise the haystack scan; `False` for an empty
      haystack. */
  function DoIpFieldsOverlap(needle: string, haystack: seq<string>): (r: TriState)
    ensures !IsEntryText(needle) ==> r == Invalid
    ensures IsEntryText(needle) && haystack == [] ==> r == False
  {
    if !IsValidIpAddress(needle) && !IsValidIpRange(needle) then Invalid
    else ScanHaystack(needle, haystack)
  }

  /** The three outcomes: `True` at the first value that matches, `Invalid`
      at the first value, reached before any match, that is neither an address
      nor a range (or for a malformed needle), `False` when the needle is
      well formed and every value moved on. */
  lemma FieldsOverlapOutcome(needle: string, haystack: seq<string>)
    ensures var r := DoIpFieldsOverlap(needle, haystack);
      && (r == True <==> IsEntryText(needle) && exists i: nat :: ScanEndsAt(needle, haystack, i, True))
      && (r == False <==> IsEntryText(needle) && NoMatchBefore(needle, haystack, |haystack|))
      && (IsEntryText(needle) && r == Invalid ==> exists i: nat :: ScanEndsAt(needle, haystack, i, Invalid))
  {
    if IsEntryText(needle) {
      ScanHaystackEnds(needle, haystack);
      var r := DoIpFieldsOverlap(needle, haystack);
      if r == False {
        forall i: nat | ScanEndsAt(needle, haystack, i, True) ensures false {
        }
      } else {
        var i: nat :| ScanEndsAt(needle, haystack, i, r);
        assert !NoMatchBefore(needle, haystack, |haystack|) by {
          assert MatchOne(needle, haystack[i]) != False;
        }
        forall o: TriState, j: nat | o != False && ScanEndsAt(needle, haystack, j, o) ensures o == r {
          ScanEndsOnce(needle, haystack, i, r, j, o);
        }
      }
    }
  }

  // ---------------------------------------------------------------------------
  // What the texts mean: entries and the addresses they cover

  /** An address or a range, as a parsed value. */
  datatype Entry = Address(ip: nat) | Range(lower: nat, upper: nat)

  /** The entry a text stands for: an address first, then a range (the order
      in which the source tries them). */
  function ParseEntry(s: string): (e: Option<Entry>)
    ensures e.Some? <==> IsEntryText(s)
  {
    if IsValidIpAddress(s) then Some(Address(IpToLong(s)))
    else if IsValidIpRange(s) then Some(Range(RangeLower(s), RangeUpper(s)))
    else None
  }

  /** The address `x` belongs to the entry (both range bounds included). */
  predicate Covers(e: Entry, x: nat)
  {
    match e
    case Address(ip) => x == ip
    case Range(lower, upper) => lower <= x <= upper
  }

  /** Two entries share at least one address. */
  ghost predicate Intersect(a: Entry, b: Entry)
  {
    exists x: nat :: Covers(a, x) && Covers(b, x)
  }

  /** An address shares an address with an entry exactly when the entry
      covers it. */
  lemma AddressIntersectIsCover(x: nat, e: Entry)
    ensures Intersect(Address(x), e) <==> Covers(e, x)
  {
    if Covers(e, x) {
      assert Covers(Address(x), x);
    }
  }

  /** The lowest address of an entry. */
  function Low(e: Entry): nat { if e.Address? then e.ip else e.lower }

  /** The highest address of an entry. */
  function High(e: Entry): nat { if e.Address? then e.ip else e.upper }

  /** The entry a valid text stands for is a non-empty closed interval. */
  lemma ParsedEntryIsInterval(s: string)
    requires IsEntryText(s)
    ensures Low(ParseEntry(s).value) <= High(ParseEntry(s).value)
    ensures forall x: nat :: Covers(ParseEntry(s).value, x) <==> Low(ParseEntry(s).value) <= x <= High(ParseEntry(s).value)
  {
    if !IsValidIpAddress(s) {
      RangeCanonical(s);
    }
  }

  /** Two non-empty intervals share an address exactly when each starts no
      later than the other ends. */
  lemma IntersectIsIntervalTest(a: Entry, b: Entry)
    requires Low(a) <= High(a) && Low(b) <= High(b)
    ensures Intersect(a, b) <==> Low(a) <= High(b) && Low(b) <= High(a)
  {
    if Low(a) <= High(b) && Low(b) <= High(a) {
      var x := if Low(a) <= Low(b) then Low(b) else Low(a);
      assert Covers(a, x) && Covers(b, x);
    }
  }

  // ---------------------------------------------------------------------------
  // Properties of validation

  /** The empty text is neither an address nor a range. */
  lemma EmptyIsNoEntry()
    ensures !IsValidIpAddress("") && !IsValidIpRange("")
  {
    assert Strings.Split("", '.') == [""];
    assert Strings.Split("", '-') == [""];
  }

  /** A range text always holds a `-`. */
  lemma RangeHasDash(s: string)
    requires IsValidIpRange(s)
    ensures '-' in s
  {
    Strings.SinglePieceIff(s, '-');
  }

  /** No text is both an address and a range. */
  lemma AddressIsNotRange(s: string)
    ensures !(IsValidIpAddress(s) && IsValidIpRange(s))
  {
    if IsValidIpRange(s) {
      RangeHasDash(s);
      if IsValidIpAddress(s) {
        Ipv4.AddressAlphabet(s, '-');
      }
    }
  }

  /** A text holding a `,` is neither an address nor a range. */
  lemma CommaIsNoEntry(s: string)
    requires ',' in s
    ensures !IsValidIpAddress(s) && !IsValidIpRange(s)
  {
    if IsValidIpAddress(s) {
      Ipv4.AddressAlphabet(s, ',');
    }
    if IsValidIpRange(s) {
      Strings.PieceHoldsChar(s, '-', ',');
      var i :| 0 <= i < 2 && ',' in Strings.Split(s, '-')[i];
      Ipv4.AddressAlphabet(Strings.Split(s, '-')[i], ',');
    }
  }

  /** The canonical text of an address holds no `-`. */
  lemma FormattedHasNoDash(n: nat)
    requires n < Ipv4.ADDRESS_SPACE
    ensures '-' !in Ipv4.FormatAddress(n)
  {
    Ipv4.AddressRoundTrip(n);
    if '-' in Ipv4.FormatAddress(n) {
      Ipv4.AddressAlphabet(Ipv4.FormatAddress(n), '-');
    }
  }

  /** "A-B" built from two address values is a valid range exactly when A < B,
      and then its bounds are A and B: equal or inverted bounds are rejected. */
  lemma RangeRoundTrip(lower: nat, upper: nat)
    requires lower < Ipv4.ADDRESS_SPACE && upper < Ipv4.ADDRESS_SPACE
    ensures var s := Ipv4.FormatAddress(lower) + "-" + Ipv4.FormatAddress(upper);
      && (IsValidIpRange(s) <==> lower < upper)
      && (IsValidIpRange(s) ==> RangeLower(s) == lower && RangeUpper(s) == upper)
  {
    var a, b := Ipv4.FormatAddress(lower), Ipv4.FormatAddress(upper);
    FormattedHasNoDash(lower);
    FormattedHasNoDash(upper);
    Strings.SplitAround(a, '-', b);
    Strings.SplitWithoutSeparator(a, '-');
    Strings.SplitWithoutSeparator(b, '-');
    assert a + "-" + b == a + ['-'] + b;
    Ipv4.AddressRoundTrip(lower);
    Ipv4.AddressRoundTrip(upper);
  }

  /** A valid range is the canonical text of its two bounds. */
  lemma RangeCanonical(s: string)
    requires IsValidIpRange(s)
    ensures RangeLower(s) < RangeUpper(s)
    ensures s == Ipv4.FormatAddress(RangeLower(s)) + "-" + Ipv4.FormatAddress(RangeUpper(s))
  {
    var ips := Strings.Split(s, '-');
    Strings.JoinSplit(s, '-');
    assert s == ips[0] + ['-'] + ips[1];
    Ipv4.AddressCanonical(ips[0]);
    Ipv4.AddressCanonical(ips[1]);
  }

  // ---------------------------------------------------------------------------
  // Properties of the interval primitives

  /** For well-formed ranges the four boundary checks are the closed-interval
      intersection test: they answer true exactly when some address lies in
      both, which is `aLower <= bUpper && bLower <= aUpper`. */
  lemma RangesOverlapIsIntersection(aLower: string, aUpper: string, bLower: string, bUpper: string)
    requires IsValidIpAddress(aLower) && IsValidIpAddress(aUpper) && IsValidIpAddress(bLower) && IsValidIpAddress(bUpper)
    requires IpToLong(aLower) <= IpToLong(aUpper) && IpToLong(bLower) <= IpToLong(bUpper)
    ensures DoIpRangesOverlap(aLower, aUpper, bLower, bUpper) ==
      FromBool(Intersect(Range(IpToLong(aLower), IpToLong(aUpper)), Range(IpToLong(bLower), IpToLong(bUpper))))
    ensures DoIpRangesOverlap(aLower, aUpper, bLower, bUpper) ==
      FromBool(IpToLong(aLower) <= IpToLong(bUpper) && IpToLong(bLower) <= IpToLong(aUpper))
  {
    var al, au, bl, bu := IpToLong(aLower), IpToLong(aUpper), IpToLong(bLower), IpToLong(bUpper);
    var a, b := Range(al, au), Range(bl, bu);
    if al <= bu && bl <= au {
      var x := if al <= bl then bl else al;
      assert Covers(a, x) && Covers(b, x);
    } else {
      assert !Intersect(a, b) by {
        forall x: nat ensures !(Covers(a, x) && Covers(b, x)) { }
      }
    }
  }

  /** The overlap test does not depend on which range is the needle. */
  lemma RangesOverlapSymmetric(aLower: string, aUpper: string, bLower: string, bUpper: string)
    ensures DoIpRangesOverlap(aLower, aUpper, bLower, bUpper) == DoIpRangesOverlap(bLower, bUpper, aLower, aUpper)
  {
  }

  /** A well-formed range overlaps itself. */
  lemma RangesOverlapReflexive(lower: string, upper: string)
    requires IsValidIpAddress(lower) && IsValidIpAddress(upper) && IpToLong(lower) <= IpToLong(upper)
    ensures DoIpRangesOverlap(lower, upper, lower, upper) == True
  {
  }

  /** Ranges that only touch at one boundary address overlap. */
  lemma RangesOverlapTouching(x: string, y: string, z: string)
    requires IsValidIpAddress(x) && IsValidIpAddress(y) && IsValidIpAddress(z)
    requires IpToLong(x) <= IpToLong(y) <= IpToLong(z)
    ensures DoIpRangesOverlap(x, y, y, z) == True
  {
  }

  /** Containment is overlap with the one-address range [ip, ip]. */
  lemma WithinRangeAsOverlap(ip: string, lower: string, upper: string)
    requires IsValidIpAddress(ip) && IsValidIpAddress(lower) && IsValidIpAddress(upper)
    requires IpToLong(lower) <= IpToLong(upper)
    ensures IsIpAddressWithinRange(ip, lower, upper) <==> Truthy(DoIpRangesOverlap(ip, ip, lower, upper))
    ensures IsIpAddressWithinRange(ip, lower, upper) <==> Covers(Range(IpToLong(lower), IpToLong(upper)), IpToLong(ip))
  {
  }

  // ---------------------------------------------------------------------------
  // Properties of the needle scan

  /** The four-way dispatch of the `foreach` body is one rule: `Invalid` when
      either text is neither an address nor a range, otherwise whether the two
      entries share an address (equal addresses, inclusive containment either
      way round, or range overlap). */
  lemma MatchOneIsIntersection(needle: string, haystackValue: string)
    ensures MatchOne(needle, haystackValue) ==
      if ParseEntry(needle).None? || ParseEntry(haystackValue).None? then Invalid
      else FromBool(Intersect(ParseEntry(needle).value, ParseEntry(haystackValue).value))
  {
    var n, h := ParseEntry(needle), ParseEntry(haystackValue);
    if n.Some? && h.Some? {
      var a, b := n.value, h.value;
      match (a, b)
      case (Address(x), Address(y)) =>
        if x == y { assert Covers(a, x) && Covers(b, x); }
      case (Address(x), Range(lo, hi)) =>
        if lo <= x <= hi { assert Covers(a, x) && Covers(b, x); }
      case (Range(lo, hi), Address(y)) =>
        if lo <= y <= hi { assert Covers(a, y) && Covers(b, y); }
      case (Range(_, _), Range(_, _)) =>
        var nr, hr := Strings.Split(needle, '-'), Strings.Split(haystackValue, '-');
        RangesOverlapIsIntersection(nr[0], nr[1], hr[0], hr[1]);
    }
  }

  /** When the needle and every haystack value are well formed, the answer is
      never `Invalid` and is `True` exactly when some value shares an address
      with the needle. */
  lemma FieldsOverlapIsIntersection(needle: string, haystack: seq<string>)
    requires IsEntryText(needle)
    requires forall i :: 0 <= i < |haystack| ==> IsEntryText(haystack[i])
    ensures DoIpFieldsOverlap(needle, haystack) ==
      FromBool(exists i :: 0 <= i < |haystack| && Intersect(ParseEntry(needle).value, ParseEntry(haystack[i]).value))
  {
    var e := ParseEntry(needle).value;
    forall i | 0 <= i < |haystack|
      ensures MatchOne(needle, haystack[i]) == FromBool(Intersect(e, ParseEntry(haystack[i]).value))
    {
      MatchOneIsIntersection(needle, haystack[i]);
    }
    FieldsOverlapOutcome(needle, haystack);
    if exists i :: 0 <= i < |haystack| && Intersect(e, ParseEntry(haystack[i]).value) {
      assert !NoMatchBefore(needle, haystack, |haystack|);
    } else {
      assert NoMatchBefore(needle, haystack, |haystack|);
    }
  }

  /** Some value of the haystack covers the address `x`. */
  predicate SomeValueCovers(haystack: seq<string>, x: nat)
    requires forall i :: 0 <= i < |haystack| ==> IsEntryText(haystack[i])
  {
    exists i :: 0 <= i < |haystack| && Covers(ParseEntry(haystack[i]).value, x)
  }

  /** For an address needle the answer is `True` exactly when some value
      covers the address, and `False` otherwise. */
  lemma AddressFieldsOverlap(needle: string, haystack: seq<string>)
    requires IsValidIpAddress(needle)
    requires forall i :: 0 <= i < |haystack| ==> IsEntryText(haystack[i])
    ensures DoIpFieldsOverlap(needle, haystack) == FromBool(SomeValueCovers(haystack, IpToLong(needle)))
  {
    var x := IpToLong(needle);
    assert ParseEntry(needle).value == Address(x);
    FieldsOverlapIsIntersection(needle, haystack);
    if SomeValueCovers(haystack, x) {
      var i :| 0 <= i < |haystack| && Covers(ParseEntry(haystack[i]).value, x);
      AddressIntersectIsCover(x, ParseEntry(haystack[i]).value);
    } else {
      forall i | 0 <= i < |haystack| ensures !Intersect(Address(x), ParseEntry(haystack[i]).value) {
        AddressIntersectIsCover(x, ParseEntry(haystack[i]).value);
      }
    }
  }

  /** First match wins: once a prefix of the haystack answers `True` (or
      `Invalid`), nothing after it is looked at, so a malformed value after a
      match never turns the answer into `Invalid`. */
  lemma PrefixDecides(needle: string, haystack: seq<string>, rest: seq<string>)
    requires DoIpFieldsOverlap(needle, haystack) != False
    ensures DoIpFieldsOverlap(needle, haystack + rest) == DoIpFieldsOverlap(needle, haystack)
  {
    var r := DoIpFieldsOverlap(needle, haystack);
    if IsEntryText(needle) {
      FieldsOverlapOutcome(needle, haystack);
      var i: nat :| ScanEndsAt(needle, haystack, i, r);
      var all := haystack + rest;
      assert all[i] == haystack[i];
      assert NoMatchBefore(needle, all, i) by {
        forall j | 0 <= j < i ensures all[j] == haystack[j] { }
      }
      assert ScanEndsAt(needle, all, i, r);
      FieldsOverlapOutcome(needle, all);
      if DoIpFieldsOverlap(needle, all) != False {
        var j: nat :| ScanEndsAt(needle, all, j, DoIpFieldsOverlap(needle, all));
        ScanEndsOnce(needle, all, i, r, j, DoIpFieldsOverlap(needle, all));
      }
    }
  }
}
