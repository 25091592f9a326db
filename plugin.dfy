/**
  The decisions plugin/class-plugin.php takes on top of the entry engine,
  with WordPress abstracted away: the stored option (team id to field text,
  in option order), the posted settings fields and the ids of the existing
  teams are parameters, and what the source writes back or deletes is a
  returned value.
 */
module Plugin {
  import opened Wrappers
  import Strings
  import Ipv4
  import opened IpValidator

  /** A team id, as stored in the keys of the option. */
  type TeamId = int

  // ---------------------------------------------------------------------------
  // is_valid_settings_field_ip (lines 434-457)

  /** Every text of `values` is an address or a range. */
  predicate AllEntries(values: seq<string>)
  {
    forall i :: 0 <= i < |values| ==> IsEntryText(values[i])
  }

  /** The `foreach` of lines 442-454: every piece is an address or a range. */
  function AllPiecesValid(values: seq<string>): (ok: bool)
    ensures ok <==> AllEntries(values)
  {
    if values == [] then true
    else if IsValidIpAddress(values[0]) then AllPiecesValid(values[1..])
    else if IsValidIpRange(values[0]) then AllPiecesValid(values[1..])
    else false
  }

  /** `is_valid_settings_field_ip`: an empty field, or comma-separated
      addresses and ranges. */
  function IsValidSettingsFieldIp(field: string): (ok: bool)
    ensures ok <==> field == "" || AllEntries(Strings.Split(field, ','))
  {
    field == "" || AllPiecesValid(Strings.Split(field, ','))
  }

  /** Two fields joined by a comma are valid exactly when both are valid and
      neither is empty: an empty piece between, before or after commas makes
      a field invalid. */
  lemma FieldJoinIff(a: string, b: string)
    ensures IsValidSettingsFieldIp(a + "," + b) <==>
      a != "" && b != "" && IsValidSettingsFieldIp(a) && IsValidSettingsFieldIp(b)
  {
    EmptyIsNoEntry();
    var pa, pb := Strings.Split(a, ','), Strings.Split(b, ',');
    assert a + "," + b == a + [','] + b;
    Strings.SplitAround(a, ',', b);
    var all := pa + pb;
    assert forall i :: 0 <= i < |pa| ==> all[i] == pa[i];
    assert forall i :: 0 <= i < |pb| ==> all[|pa| + i] == pb[i];
    if a == "" { assert pa == [""]; assert all[0] == ""; }
    if b == "" { assert pb == [""]; assert all[|pa|] == ""; }
    if a != "" && b != "" && IsValidSettingsFieldIp(a) && IsValidSettingsFieldIp(b) {
      forall i | 0 <= i < |all| ensures IsEntryText(all[i]) {
        if i >= |pa| { assert all[i] == pb[i - |pa|]; }
      }
    }
  }

  /** A trailing comma leaves an empty last piece, so the field is rejected. */
  lemma TrailingCommaRejected(a: string)
    ensures !IsValidSettingsFieldIp(a + ",")
  {
    FieldJoinIff(a, "");
    assert a + "," + "" == a + ",";
  }

  /** A piece without a comma passes when it is empty, an address or a range. */
  lemma PieceIsValidIff(piece: string)
    requires ',' !in piece
    ensures IsValidSettingsFieldIp(piece) <==> piece == "" || IsEntryText(piece)
  {
    Strings.SplitWithoutSeparator(piece, ',');
  }

  // ---------------------------------------------------------------------------
  // validate_fields_on_update (lines 348-425)

  /** The piece `piece` of the value collides with the posted field `sibling`
      (line 402: the sibling is passed whole, as a one-element haystack, and an
      Invalid answer counts as no collision). */
  predicate Conflicts(piece: string, sibling: string)
  {
    Truthy(DoIpFieldsOverlap(piece, [sibling]))
  }

  /** The inner `foreach` (lines 400-421): the first sibling, in order, that
      the piece collides with. */
  function FirstOverlap(piece: string, siblings: seq<string>): (r: Option<string>)
    ensures r.None? <==> forall j :: 0 <= j < |siblings| ==> !Conflicts(piece, siblings[j])
    ensures r.Some? ==>
      exists j :: 0 <= j < |siblings| && siblings[j] == r.value && Conflicts(piece, siblings[j])
        && forall k :: 0 <= k < j ==> !Conflicts(piece, siblings[k])
  {
    if siblings == [] then None
    else if Conflicts(piece, siblings[0]) then Some(siblings[0])
    else
      var r := FirstOverlap(piece, siblings[1..]);
      assert forall j :: 0 < j < |siblings| ==> siblings[j] == siblings[1..][j - 1];
      assert r.Some? ==>
        exists j :: 0 <= j < |siblings| && siblings[j] == r.value && Conflicts(piece, siblings[j])
          && forall k :: 0 <= k < j ==> !Conflicts(piece, siblings[k]) by {
        if r.Some? {
          var j :| 0 <= j < |siblings[1..]| && siblings[1..][j] == r.value && Conflicts(piece, siblings[1..][j])
            && forall k :: 0 <= k < j ==> !Conflicts(piece, siblings[1..][k]);
          assert forall k :: 0 <= k < j + 1 ==> !Conflicts(piece, siblings[k]) by {
            forall k | 0 < k < j + 1 ensures !Conflicts(piece, siblings[k]) {
              assert siblings[k] == siblings[1..][k - 1];
            }
          }
          assert siblings[j + 1] == r.value;
        }
      }
      r
  }

  /** What stops the save of a value, if anything. */
  datatype Verdict = Accepted | Malformed(piece: string) | Overlapping(piece: string, sibling: string)

  /** Every piece before index `i` passed both checks. */
  ghost predicate CleanBefore(pieces: seq<string>, siblings: seq<string>, i: nat)
    requires i <= |pieces|
  {
    forall k :: 0 <= k < i ==> IsValidSettingsFieldIp(pieces[k]) && FirstOverlap(pieces[k], siblings).None?
  }

  /** The outer `foreach` (lines 379-422): pieces in order; for each, first
      its own validity, then the siblings in order. */
  function FirstProblem(pieces: seq<string>, siblings: seq<string>): (v: Verdict)
    ensures v == Accepted <==> CleanBefore(pieces, siblings, |pieces|)
    ensures v.Malformed? ==>
      exists i :: 0 <= i < |pieces| && pieces[i] == v.piece
        && !IsValidSettingsFieldIp(pieces[i]) && CleanBefore(pieces, siblings, i)
    ensures v.Overlapping? ==>
      exists i :: 0 <= i < |pieces| && pieces[i] == v.piece
        && IsValidSettingsFieldIp(pieces[i]) && FirstOverlap(pieces[i], siblings) == Some(v.sibling)
        && CleanBefore(pieces, siblings, i)
  {
    if pieces == [] then Accepted
    else if !IsValidSettingsFieldIp(pieces[0]) then Malformed(pieces[0])
    else
      match FirstOverlap(pieces[0], siblings)
      case Some(sibling) => Overlapping(pieces[0], sibling)
      case None =>
        var v := FirstProblem(pieces[1..], siblings);
        ShiftClean(pieces, siblings);
        v
  }

  lemma ShiftClean(pieces: seq<string>, siblings: seq<string>)
    requires pieces != [] && IsValidSettingsFieldIp(pieces[0]) && FirstOverlap(pieces[0], siblings).None?
    ensures forall i :: 0 <= i < |pieces| ==> (CleanBefore(pieces, siblings, i + 1) <==> CleanBefore(pieces[1..], siblings, i))
  {
    forall i | 0 <= i < |pieces|
      ensures CleanBefore(pieces, siblings, i + 1) <==> CleanBefore(pieces[1..], siblings, i)
    {
      assert forall k :: 0 < k < i + 1 ==> pieces[k] == pieces[1..][k - 1];
    }
  }

  /** The regular expression `.+\[(?<id>\d+)\]` of line 356 matches with its
      `]` at index `q` and its `[` at index `p`. */
  predicate BracketedIdAt(s: string, p: nat, q: nat)
  {
    1 <= p && p + 1 < q < |s| && s[p] == '[' && s[q] == ']'
    && forall k :: p < k < q ==> Ipv4.IsDigit(s[k])
  }

  /** The number of digits that end just before index `k`. */
  function DigitRunBefore(s: string, k: nat): (n: nat)
    requires k <= |s|
    ensures n <= k
    ensures forall j :: k - n <= j < k ==> Ipv4.IsDigit(s[j])
    ensures n < k ==> !Ipv4.IsDigit(s[k - n - 1])
  {
    if k == 0 || !Ipv4.IsDigit(s[k - 1]) then 0 else 1 + DigitRunBefore(s, k - 1)
  }

  /** The id of a match whose `]` is at index `q`, if there is one. */
  function IdClosedAt(s: string, q: nat): (id: Option<string>)
    requires q < |s|
    ensures id.Some? ==> |id.value| + 1 < q
  {
    var n := DigitRunBefore(s, q);
    if s[q] == ']' && n >= 1 && q - n - 1 >= 1 && s[q - n - 1] == '[' then Some(s[q - n..q]) else None
  }

  /** A match found at `q` is a bracketed digit run ending there. */
  lemma IdClosedAtSome(s: string, q: nat)
    requires q < |s| && IdClosedAt(s, q).Some?
    ensures var id := IdClosedAt(s, q).value;
      BracketedIdAt(s, q - |id| - 1, q) && id == s[q - |id|..q]
  {
  }

  /** No match at `q` means no bracketed digit run ends there. */
  lemma IdClosedAtNone(s: string, q: nat, p: nat)
    requires q < |s| && IdClosedAt(s, q).None?
    ensures !BracketedIdAt(s, p, q)
  {
  }

  /** No match has its `]` at an index in `[lo, hi)`. */
  ghost predicate NoIdBetween(s: string, lo: nat, hi: nat)
    requires hi <= |s|
  {
    forall q :: lo <= q < hi ==> IdClosedAt(s, q).None?
  }

  /** The match whose `]` is the rightmost one before index `k`. */
  function SearchId(s: string, k: nat): (id: Option<string>)
    requires k <= |s|
    ensures id.Some? ==> id.value != []
  {
    if k == 0 then None
    else if IdClosedAt(s, k - 1).Some? then IdClosedAt(s, k - 1)
    else SearchId(s, k - 1)
  }

  /** A search that finds nothing saw no match close before `k`. */
  lemma {:induction false} SearchIdNone(s: string, k: nat)
    requires k <= |s| && SearchId(s, k).None?
    ensures NoIdBetween(s, 0, k)
  {
    if k > 0 {
      SearchIdNone(s, k - 1);
      NoIdExtend(s, 0, k - 1);
    }
  }

  /** A search that finds something returns the match that closes last. */
  lemma {:induction false} SearchIdLast(s: string, k: nat) returns (q: nat)
    requires k <= |s| && SearchId(s, k).Some?
    ensures q < k && IdClosedAt(s, q) == SearchId(s, k) && NoIdBetween(s, q + 1, k)
  {
    if IdClosedAt(s, k - 1).Some? {
      q := k - 1;
    } else {
      assert SearchId(s, k) == SearchId(s, k - 1);
      q := SearchIdLast(s, k - 1);
      NoIdExtend(s, q + 1, k - 1);
    }
  }

  /** Widening the range by one index adds that index's check. */
  lemma NoIdExtend(s: string, lo: nat, hi: nat)
    requires lo <= hi < |s|
    ensures NoIdBetween(s, lo, hi + 1) <==> NoIdBetween(s, lo, hi) && IdClosedAt(s, hi).None?
  {
  }

  /** The team id the option id carries: what `preg_match` leaves in
      `$matches['id']`. The greedy `.+` makes it the rightmost bracketed run
      of digits that has at least one character before its `[`. */
  function ExtractTeamId(optionId: string): (id: Option<string>)
  {
    SearchId(optionId, |optionId|)
  }

  /** The regular expression finds no id exactly when no `[digits]` with a
      character before it occurs. */
  lemma ExtractTeamIdNone(optionId: string)
    ensures ExtractTeamId(optionId).None? <==> forall p: nat, q: nat :: !BracketedIdAt(optionId, p, q)
  {
    if ExtractTeamId(optionId).None? {
      SearchIdNone(optionId, |optionId|);
      forall p: nat, q: nat ensures !BracketedIdAt(optionId, p, q) {
        if q < |optionId| { IdClosedAtNone(optionId, q, p); }
      }
    } else {
      var q := SearchIdLast(optionId, |optionId|);
      IdClosedAtSome(optionId, q);
    }
  }

  /** No match has its `]` after index `q`. */
  ghost predicate NoBracketAfter(s: string, q: nat)
  {
    forall p': nat, q': nat :: q < q' ==> !BracketedIdAt(s, p', q')
  }

  /** Where no match closes, no bracketed digit run closes either. */
  lemma NoIdMeansNoBracket(s: string, q: nat)
    requires q < |s| && NoIdBetween(s, q + 1, |s|)
    ensures NoBracketAfter(s, q)
  {
    forall p': nat, q': nat | q < q' ensures !BracketedIdAt(s, p', q') {
      if q' < |s| { IdClosedAtNone(s, q', p'); }
    }
  }

  /** Otherwise the id is the digits of the rightmost such occurrence. */
  lemma ExtractTeamIdSome(optionId: string)
    requires ExtractTeamId(optionId).Some?
    ensures exists p: nat, q: nat ::
      BracketedIdAt(optionId, p, q) && ExtractTeamId(optionId).value == optionId[p + 1..q] && NoBracketAfter(optionId, q)
  {
    var s := optionId;
    var id := ExtractTeamId(s);
    var q := SearchIdLast(s, |s|);
    IdClosedAtSome(s, q);
    var p: nat := q - |id.value| - 1;
    assert BracketedIdAt(s, p, q) && id.value == s[p + 1..q];
    NoIdMeansNoBracket(s, q);
  }

  /** `$other_posted_fields` (lines 373-375): the posted values, in order,
      without the one posted under the team's own id. */
  function OtherPostedFields(posted: seq<(string, string)>, teamId: string): (others: seq<string>)
    ensures |others| <= |posted|
    ensures forall v :: v in others <==> exists i :: 0 <= i < |posted| && posted[i].0 != teamId && posted[i].1 == v
  {
    if posted == [] then []
    else
      var rest := OtherPostedFields(posted[1..], teamId);
      assert forall i :: 0 < i < |posted| ==> posted[i] == posted[1..][i - 1];
      if posted[0].0 != teamId then [posted[0].1] + rest else rest
  }

  /** The filter's answer and the flag it leaves behind. */
  datatype Decision = Decision(saved: Option<string>, errorHappened: bool)

  /** What `validate_fields_on_update` decides when no earlier field failed:
      the value unchanged when the option id carries no team id or nothing was
      posted; otherwise null on the first malformed piece (flag untouched) or
      the first collision (flag raised), and the value unchanged when neither
      occurs. `posted` is None when `$_POST` holds no settings array. */
  function SaveDecision(value: string, optionId: string, posted: Option<seq<(string, string)>>): Decision
  {
    match ExtractTeamId(optionId)
    case None => Decision(Some(value), false)
    case Some(teamId) =>
      match posted
      case None => Decision(Some(value), false)
      case Some(fields) =>
        match FirstProblem(Strings.Split(value, ','), OtherPostedFields(fields, teamId))
        case Accepted => Decision(Some(value), false)
        case Malformed(_) => Decision(None, false)
        case Overlapping(_, _) => Decision(None, true)
  }

  /** The inner `foreach` (lines 400-421) as the method runs it: whether
      some sibling collides with the piece. */
  method FindCollision(piece: string, siblings: seq<string>) returns (collides: bool)
    ensures collides <==> FirstOverlap(piece, siblings).Some?
  {
    var j := 0;
    while j < |siblings|
      invariant 0 <= j <= |siblings|
      invariant FirstOverlap(piece, siblings) == FirstOverlap(piece, siblings[j..])
    {
      OverlapStep(piece, siblings, j);
      if Truthy(DoIpFieldsOverlap(piece, [siblings[j]])) {
        return true;
      }
      j := j + 1;
    }
    return false;
  }

  /** The plugin object: its one piece of mutable state is the flag that a
      collision was found while saving the settings of this request. */
  class Plugin {
    var validationErrorHappened: bool

    /** PHP leaves the property null, which `true ===` reads as not set. */
    constructor ()
      ensures !validationErrorHappened
    {
      validationErrorHappened := false;
    }

    /** The `woocommerce_admin_settings_sanitize_option_` filter: returns the
        value to save, or None (PHP null) to skip saving it. Once the flag is
        set every later field is skipped unread. */
    method ValidateFieldsOnUpdate(value: string, optionId: string, posted: Option<seq<(string, string)>>)
      returns (saved: Option<string>)
      modifies this
      ensures old(validationErrorHappened) ==> saved == None && validationErrorHappened
      ensures !old(validationErrorHappened) ==>
        Decision(saved, validationErrorHappened) == SaveDecision(value, optionId, posted)
    {
      if validationErrorHappened {
        return None;
      }
      var found := ExtractTeamId(optionId);
      if found.None? {
        return Some(value);
      }
      var teamId := found.value;
      if posted.None? {
        return Some(value);
      }
      var others := OtherPostedFields(posted.value, teamId);
      var pieces := Strings.Split(value, ',');
      var i := 0;
      while i < |pieces|
        invariant 0 <= i <= |pieces|
        invariant !validationErrorHappened
        invariant FirstProblem(pieces, others) == FirstProblem(pieces[i..], others)
      {
        var piece := pieces[i];
        ProblemStep(pieces, i, others);
        if !IsValidSettingsFieldIp(piece) {
          return None;
        }
        var collides := FindCollision(piece, others);
        if collides {
          validationErrorHappened := true;
          return None;
        }
        i := i + 1;
      }
      return Some(value);
    }
  }

  /** One turn of the outer loop: the piece at `i` decides, or the rest do. */
  lemma ProblemStep(pieces: seq<string>, i: nat, siblings: seq<string>)
    requires i < |pieces|
    ensures FirstProblem(pieces[i..], siblings) ==
      if !IsValidSettingsFieldIp(pieces[i]) then Malformed(pieces[i])
      else if FirstOverlap(pieces[i], siblings).Some? then Overlapping(pieces[i], FirstOverlap(pieces[i], siblings).value)
      else FirstProblem(pieces[i + 1..], siblings)
  {
    assert pieces[i..][0] == pieces[i] && pieces[i..][1..] == pieces[i + 1..];
  }

  /** One turn of the inner loop: the sibling at `j` collides, or the rest
      decide. */
  lemma OverlapStep(piece: string, siblings: seq<string>, j: nat)
    requires j < |siblings|
    ensures FirstOverlap(piece, siblings[j..]) ==
      if Conflicts(piece, siblings[j]) then Some(siblings[j]) else FirstOverlap(piece, siblings[j + 1..])
  {
    assert siblings[j..][0] == siblings[j] && siblings[j..][1..] == siblings[j + 1..];
  }

  // Properties of the save-time decision

  /** The filter only ever returns the value unchanged or null. */
  lemma SavedIsValue(value: string, optionId: string, posted: Option<seq<(string, string)>>)
    ensures SaveDecision(value, optionId, posted).saved.Some? ==> SaveDecision(value, optionId, posted).saved == Some(value)
  {
  }

  /** What passes the check when there are siblings to compare with: every
      piece is empty, an address or a range, and no piece collides with any
      other team's posted field. */
  lemma AcceptedIsClean(value: string, optionId: string, fields: seq<(string, string)>)
    requires ExtractTeamId(optionId).Some?
    requires SaveDecision(value, optionId, Some(fields)).saved.Some?
    ensures var pieces := Strings.Split(value, ',');
      forall i :: 0 <= i < |pieces| ==> pieces[i] == "" || IsEntryText(pieces[i])
    ensures var pieces := Strings.Split(value, ',');
      var others := OtherPostedFields(fields, ExtractTeamId(optionId).value);
      forall i, j :: 0 <= i < |pieces| && 0 <= j < |others| ==> !Conflicts(pieces[i], others[j])
  {
    var pieces := Strings.Split(value, ',');
    var others := OtherPostedFields(fields, ExtractTeamId(optionId).value);
    assert FirstProblem(pieces, others) == Accepted;
    forall i | 0 <= i < |pieces| ensures pieces[i] == "" || IsEntryText(pieces[i]) {
      PieceIsValidIff(pieces[i]);
    }
  }

  /** The save check validates each comma piece on its own, and the empty
      piece passes (`empty("")`, line 436). So an entry followed by a trailing
      comma is accepted at save time when the entry collides with no sibling,
      although the whole text fails `is_valid_settings_field_ip`. */
  lemma TrailingCommaPassesSave(entry: string, siblings: seq<string>)
    requires IsEntryText(entry) && ',' !in entry && FirstOverlap(entry, siblings).None?
    ensures Strings.Split(entry + ",", ',') == [entry, ""]
    ensures FirstProblem(Strings.Split(entry + ",", ','), siblings) == Accepted
    ensures !IsValidSettingsFieldIp(entry + ",")
  {
    assert entry + "," == entry + [','] + "";
    Strings.SplitAround(entry, ',', "");
    Strings.SplitWithoutSeparator(entry, ',');
    assert Strings.Split("", ',') == [""];
    PieceIsValidIff(entry);
    EmptyIsNoEntry();
    assert FirstOverlap("", siblings).None?;
    assert FirstProblem([""], siblings) == Accepted;
    TrailingCommaRejected(entry);
  }

  /** Some piece collides with some sibling. */
  predicate AnyConflict(pieces: seq<string>, others: seq<string>)
  {
    exists i, j :: 0 <= i < |pieces| && 0 <= j < |others| && Conflicts(pieces[i], others[j])
  }

  /** An overlapping verdict names a piece and a sibling that collide. */
  lemma OverlappingHasConflict(pieces: seq<string>, others: seq<string>)
    requires FirstProblem(pieces, others).Overlapping?
    ensures AnyConflict(pieces, others)
  {
    var v := FirstProblem(pieces, others);
    var i :| 0 <= i < |pieces| && pieces[i] == v.piece && FirstOverlap(pieces[i], others) == Some(v.sibling);
    var j :| 0 <= j < |others| && others[j] == v.sibling && Conflicts(pieces[i], others[j]);
  }

  /** The flag is raised only by a collision between a piece of the value and
      another team's posted field. */
  lemma FlagMeansCollision(value: string, optionId: string, fields: seq<(string, string)>)
    requires SaveDecision(value, optionId, Some(fields)).errorHappened
    ensures ExtractTeamId(optionId).Some?
    ensures AnyConflict(Strings.Split(value, ','), OtherPostedFields(fields, ExtractTeamId(optionId).value))
  {
    var id := ExtractTeamId(optionId);
    assert id.Some?;
    var pieces := Strings.Split(value, ',');
    var others := OtherPostedFields(fields, id.value);
    assert FirstProblem(pieces, others).Overlapping?;
    OverlappingHasConflict(pieces, others);
  }

  /** A sibling field is passed whole, so one holding a comma is neither an
      address nor a range: the answer is Invalid and never a collision. */
  lemma CommaSiblingNeverConflicts(piece: string, sibling: string)
    requires ',' in sibling
    ensures !Conflicts(piece, sibling)
  {
    CommaIsNoEntry(sibling);
    MatchOneIsIntersection(piece, sibling);
    FieldsOverlapOutcome(piece, [sibling]);
  }

  // ---------------------------------------------------------------------------
  // set_post_public_by_ip, the team lookup (lines 113-122)

  /** A team's stored field, split on commas, matches the client (line 115). */
  predicate FieldMatches(clientIp: string, ipEntry: string)
  {
    Truthy(DoIpFieldsOverlap(clientIp, Strings.Split(ipEntry, ',')))
  }

  /** The first team, in option order, whose field matches the client; an
      Invalid answer skips that team. */
  method FindTeamByIp(clientIp: string, ipEntryByTeams: seq<(TeamId, string)>) returns (teamId: Option<TeamId>)
    ensures teamId.None? <==> forall i :: 0 <= i < |ipEntryByTeams| ==> !FieldMatches(clientIp, ipEntryByTeams[i].1)
    ensures teamId.Some? ==>
      exists i :: 0 <= i < |ipEntryByTeams| && ipEntryByTeams[i].0 == teamId.value
        && FieldMatches(clientIp, ipEntryByTeams[i].1)
        && forall j :: 0 <= j < i ==> !FieldMatches(clientIp, ipEntryByTeams[j].1)
  {
    teamId := None;
    var i := 0;
    while i < |ipEntryByTeams|
      invariant 0 <= i <= |ipEntryByTeams|
      invariant teamId.None?
      invariant forall j :: 0 <= j < i ==> !FieldMatches(clientIp, ipEntryByTeams[j].1)
    {
      if FieldMatches(clientIp, ipEntryByTeams[i].1) {
        teamId := Some(ipEntryByTeams[i].0);
        assert ipEntryByTeams[i].0 == teamId.value;
        return;
      }
      i := i + 1;
    }
  }

  /** For a client address and a well-formed, non-empty stored field, the
      field matches exactly when one of its entries covers the address. */
  lemma FieldMatchesIff(clientIp: string, ipEntry: string)
    requires IsValidIpAddress(clientIp)
    requires ipEntry != "" && IsValidSettingsFieldIp(ipEntry)
    ensures AllEntries(Strings.Split(ipEntry, ','))
    ensures FieldMatches(clientIp, ipEntry) <==> SomeValueCovers(Strings.Split(ipEntry, ','), IpToLong(clientIp))
  {
    AddressFieldsOverlap(clientIp, Strings.Split(ipEntry, ','));
  }

  // ---------------------------------------------------------------------------
  // clean_up_old_ips (lines 200-227)

  /** What happens to the stored option. */
  datatype OptionWrite = LeaveOption | DeleteOption | UpdateOption(options: seq<(TeamId, string)>)

  /** The entries, in order, whose key is the id of an existing team. */
  function KeepTeams(options: seq<(TeamId, string)>, teamIds: seq<TeamId>): (kept: seq<(TeamId, string)>)
    ensures |kept| <= |options|
    ensures forall e :: e in kept <==> e in options && e.0 in teamIds
  {
    if options == [] then []
    else
      var last := options[|options| - 1];
      var init := options[..|options| - 1];
      assert options == init + [last];
      KeepTeams(init, teamIds) + (if last.0 in teamIds then [last] else [])
  }

  /** Filtering keeps the order: it distributes over concatenation. */
  lemma {:induction false} KeepTeamsAppend(a: seq<(TeamId, string)>, b: seq<(TeamId, string)>, teamIds: seq<TeamId>)
    ensures KeepTeams(a + b, teamIds) == KeepTeams(a, teamIds) + KeepTeams(b, teamIds)
    decreases |b|
  {
    if b == [] {
      assert a + b == a;
    } else {
      var init := b[..|b| - 1];
      assert (a + b)[..|a + b| - 1] == a + init;
      assert (a + b)[|a + b| - 1] == b[|b| - 1];
      KeepTeamsAppend(a, init, teamIds);
    }
  }

  /** Nothing is dropped exactly when every key is an existing team id. */
  lemma {:induction false} KeepAllIff(options: seq<(TeamId, string)>, teamIds: seq<TeamId>)
    ensures |KeepTeams(options, teamIds)| == |options| <==> forall i :: 0 <= i < |options| ==> options[i].0 in teamIds
    decreases |options|
  {
    if options != [] {
      var init := options[..|options| - 1];
      KeepAllIff(init, teamIds);
      assert forall i :: 0 <= i < |init| ==> init[i] == options[i];
    }
  }

  /** `clean_up_old_ips`: nothing to do for an empty option; delete it when
      there are no teams; otherwise write back the entries of existing teams,
      and only when some entry was dropped. */
  method CleanUpOldIps(currentOptions: seq<(TeamId, string)>, teamIds: seq<TeamId>) returns (write: OptionWrite)
    ensures |currentOptions| == 0 ==> write == LeaveOption
    ensures |currentOptions| > 0 && |teamIds| == 0 ==> write == DeleteOption
    ensures |currentOptions| > 0 && |teamIds| > 0 ==>
      if forall i :: 0 <= i < |currentOptions| ==> currentOptions[i].0 in teamIds
      then write == LeaveOption
      else write == UpdateOption(KeepTeams(currentOptions, teamIds))
  {
    if |currentOptions| == 0 {
      return LeaveOption;
    }
    if |teamIds| == 0 {
      return DeleteOption;
    }
    var updatedOptions: seq<(TeamId, string)> := [];
    var i := 0;
    while i < |currentOptions|
      invariant 0 <= i <= |currentOptions|
      invariant updatedOptions == KeepTeams(currentOptions[..i], teamIds)
    {
      assert currentOptions[..i + 1][..i] == currentOptions[..i];
      if currentOptions[i].0 in teamIds {
        updatedOptions := updatedOptions + [currentOptions[i]];
      }
      i := i + 1;
    }
    assert currentOptions[..i] == currentOptions;
    KeepAllIff(currentOptions, teamIds);
    if |updatedOptions| != |currentOptions| {
      write := UpdateOption(updatedOptions);
    } else {
      write := LeaveOption;
    }
  }
}
