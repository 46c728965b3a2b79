/** The signed `state` of the connection flows: minting, verifying, and what each promises the other. */
module ConnectState {
  import opened Text
  import opened Base64Url
  import opened Json

  const TTL_MS := 600000.0
  const CLOCK_SKEW_MS := 60000.0

  datatype Purpose = Jira | Github

  datatype State = State(
    purpose: Purpose,
    organizationId: string,
    userId: string,
    returnTo: string,
    issuedAt: real,
    nonce: string)

  datatype Failure = Malformed | BadSignature | Expired | WrongUser | WrongPurpose

  datatype Result = Accepted(state: State) | Refused(reason: Failure)

  /** HMAC-SHA256 under a secret: any function from text to bytes. */
  type Digest = (string, string) -> seq<Byte>

  const MAX_SAFE_INTEGER := 0x1F_FFFF_FFFF_FFFF

  /** A count of milliseconds a double holds exactly and prints in full. */
  type Millis = n: int | -MAX_SAFE_INTEGER <= n <= MAX_SAFE_INTEGER

  function PurposeText(purpose: Purpose): string {
    match purpose
    case Jira => "jira"
    case Github => "github"
  }

  function Sign(digest: Digest, secret: string, body: string): string {
    Encode(digest(secret, body))
  }

  function Payload(purpose: Purpose, organizationId: string, userId: string, returnTo: string,
      issuedAt: Millis, nonce: string)
    : (ms: seq<(string, Flat)>)
    ensures ms != []
  {
    [("purpose", Str(PurposeText(purpose))), ("organizationId", Str(organizationId)), ("userId", Str(userId)),
     ("returnTo", Str(returnTo)), ("issuedAt", Int(issuedAt)), ("nonce", Str(nonce))]
  }

  /** The opaque string: the payload's text, a separator, its signature. */
  function SignState(digest: Digest, secret: string, payload: seq<(string, Flat)>): string
    requires payload != []
  {
    var body := ToBase64Url(Stringify(payload));
    body + "." + Sign(digest, secret, body)
  }

  function Squared(x: nat, times: nat): (r: nat)
    ensures r >= x
    decreases times
  {
    if times == 0 then x
    else
      assert x * x >= x;
      Squared(x * x, times - 1)
  }

  /** Half an ulp past the largest double: 2^1024 - 2^970. */
  function DoubleLimit(): int {
    var top := Squared(0x1_0000_0000_0000_0000, 4);
    top - top / 0x40_0000_0000_0000
  }

  /** `Number.isFinite` of what a number literal reads as. */
  predicate IsFinite(n: real) {
    -(DoubleLimit() as real) < n < DoubleLimit() as real
  }

  lemma MillisAreFinite(n: Millis)
    ensures IsFinite(n as real)
  {
    var top := Squared(0x1_0000_0000_0000_0000, 4);
    assert top / 0x40_0000_0000_0000 <= top / 2;
  }

  function AsPurpose(value: Option<Json>): Option<Purpose> {
    if value == Some(JString("jira")) then Some(Jira)
    else if value == Some(JString("github")) then Some(Github)
    else None
  }

  function AsText(value: Option<Json>): Option<string> {
    if value.Some? && value.value.JString? then Some(value.value.s) else None
  }

  function AsNumber(value: Option<Json>): Option<real> {
    if value.Some? && value.value.JNumber? && IsFinite(value.value.n) then Some(value.value.n) else None
  }

  /** Shape check on the decoded payload; an array is an object with none of the properties. */
  function AsState(value: Json): Option<State> {
    if !value.JObject? then None
    else
      var purpose :- AsPurpose(Property(value.members, "purpose"));
      var organizationId :- AsText(Property(value.members, "organizationId"));
      var userId :- AsText(Property(value.members, "userId"));
      var returnTo :- AsText(Property(value.members, "returnTo"));
      var issuedAt :- AsNumber(Property(value.members, "issuedAt"));
      var nonce :- AsText(Property(value.members, "nonce"));
      Some(State(purpose, organizationId, userId, returnTo, issuedAt, nonce))
  }

  /** What a signed body carries, if anything. */
  function Carried(body: string): Option<State> {
    var parsed :- Parse(FromBase64Url(body));
    AsState(parsed)
  }

  /** Constant-time comparison compares the UTF-8 bytes. */
  predicate Equals(left: string, right: string) {
    Utf8(left) == Utf8(right)
  }

  function VerifyState(digest: Digest, secret: string, purpose: Purpose, value: Option<string>,
      expectedUserId: string, now: real)
    : Result
  {
    if value.None? || value.value == "" then Refused(Malformed)
    else
      var separator := LastIndexOf(value.value, '.');
      if separator <= 0 then Refused(Malformed)
      else
        var body := value.value[..separator];
        var signature := value.value[separator + 1..];
        if !Equals(signature, Sign(digest, secret, body)) then Refused(BadSignature)
        else
          match Carried(body)
          case None => Refused(Malformed)
          case Some(state) =>
            if now - state.issuedAt > TTL_MS || state.issuedAt > now + CLOCK_SKEW_MS then Refused(Expired)
            else if state.purpose != purpose then Refused(WrongPurpose)
            else if !Equals(state.userId, expectedUserId) then Refused(WrongUser)
            else Accepted(state)
  }

  // ---- what is promised ---------------------------------------------------

  /** The closed window in which a state may come back. */
  predicate InWindow(issuedAt: real, now: real) {
    issuedAt - 60000.0 <= now <= issuedAt + 600000.0
  }

  /** A string is a body, a separator and that body's signature. */
  predicate SignedAs(digest: Digest, secret: string, value: string, body: string) {
    body != [] && value == body + "." + Sign(digest, secret, body)
  }

  /** The separator is outside the signature's alphabet, so the last one splits the string. */
  lemma LastDotSplits(digest: Digest, secret: string, value: string, body: string)
    requires SignedAs(digest, secret, value, body)
    ensures LastIndexOf(value, '.') == |body|
    ensures value[..|body|] == body && value[|body| + 1..] == Sign(digest, secret, body)
  {
    var signature := Sign(digest, secret, body);
    assert value[|body|] == '.';
    forall k | |body| < k < |value|
      ensures value[k] != '.'
    {
      assert value[k] == signature[k - |body| - 1];
    }
  }

  /** The whole outcome, in terms of the only body that could have signed the string. */
  lemma OutcomeOfSigned(digest: Digest, secret: string, purpose: Purpose, value: string,
      user: string, now: real, body: string)
    requires SignedAs(digest, secret, value, body)
    ensures VerifyState(digest, secret, purpose, Some(value), user, now)
         == match Carried(body)
            case None => Refused(Malformed)
            case Some(state) =>
              if !InWindow(state.issuedAt, now) then Refused(Expired)
              else if state.purpose != purpose then Refused(WrongPurpose)
              else if state.userId != user then Refused(WrongUser)
              else Accepted(state)
  {
    LastDotSplits(digest, secret, value, body);
    var carried := Carried(body);
    if carried.Some? {
      Utf8Injective(carried.value.userId, user);
    }
  }

  /** No string is two bodies' signing. */
  lemma OneReading(digest: Digest, secret: string, value: string, a: string, b: string)
    requires SignedAs(digest, secret, value, a) && SignedAs(digest, secret, value, b)
    ensures a == b
  {
    LastDotSplits(digest, secret, value, a);
    LastDotSplits(digest, secret, value, b);
  }

  lemma SplitAt(value: string, i: nat)
    requires i < |value|
    ensures value == value[..i] + [value[i]] + value[i + 1..]
  {
  }

  /** Anything not refused before the payload is read is signed. */
  lemma ReadMeansSigned(digest: Digest, secret: string, purpose: Purpose, value: string, user: string, now: real)
    returns (body: string)
    requires VerifyState(digest, secret, purpose, Some(value), user, now)
               !in {Refused(Malformed), Refused(BadSignature)}
    ensures SignedAs(digest, secret, value, body)
  {
    var i := LastIndexOf(value, '.');
    body := value[..i];
    var signature := value[i + 1..];
    Utf8Injective(signature, Sign(digest, secret, body));
    SplitAt(value, i);
  }

  /**
   * Why a string nobody signed is refused: as malformed where there is no dot
   * behind a first character, and for its signature where there is one.
   */
  lemma UnsignedIsRefused(digest: Digest, secret: string, purpose: Purpose, value: Option<string>,
      user: string, now: real)
    requires value.Some? ==> forall body :: !SignedAs(digest, secret, value.value, body)
    ensures VerifyState(digest, secret, purpose, value, user, now)
         == if value.Some? && exists i :: 0 < i < |value.value| && value.value[i] == '.' then Refused(BadSignature)
            else Refused(Malformed)
  {
    if value.Some? {
      var i := LastIndexOf(value.value, '.');
      if i > 0 {
        Utf8Injective(value.value[i + 1..], Sign(digest, secret, value.value[..i]));
        SplitAt(value.value, i);
        assert !SignedAs(digest, secret, value.value, value.value[..i]);
      }
    }
  }

  /** A payload is a state exactly when each of the six properties is there with its type; others do not matter. */
  lemma StateExactly(value: Json, state: State)
    ensures AsState(value) == Some(state)
       <==> && value.JObject?
            && Property(value.members, "purpose") == Some(JString(if state.purpose == Jira then "jira" else "github"))
            && Property(value.members, "organizationId") == Some(JString(state.organizationId))
            && Property(value.members, "userId") == Some(JString(state.userId))
            && Property(value.members, "returnTo") == Some(JString(state.returnTo))
            && Property(value.members, "issuedAt") == Some(JNumber(state.issuedAt)) && IsFinite(state.issuedAt)
            && Property(value.members, "nonce") == Some(JString(state.nonce))
  {
    hide IsFinite, Property;
    assert "jira"[0] != "github"[0];
  }

  /**
   * Accepted strings have one reading. A string is accepted as a state exactly
   * when it is some body and its signature, the body carries that state, and
   * the state is in its window, for this purpose and this user.
   */
  lemma AcceptedExactly(digest: Digest, secret: string, purpose: Purpose, value: string,
      user: string, now: real, state: State)
    ensures VerifyState(digest, secret, purpose, Some(value), user, now) == Accepted(state)
       <==> InWindow(state.issuedAt, now) && state.purpose == purpose && state.userId == user
            && exists body :: SignedAs(digest, secret, value, body) && Carried(body) == Some(state)
  {
    var outcome := VerifyState(digest, secret, purpose, Some(value), user, now);
    if outcome == Accepted(state) {
      var body := ReadMeansSigned(digest, secret, purpose, value, user, now);
      OutcomeOfSigned(digest, secret, purpose, value, user, now, body);
    }
    if body :| SignedAs(digest, secret, value, body) && Carried(body) == Some(state) {
      OutcomeOfSigned(digest, secret, purpose, value, user, now, body);
    }
  }

  lemma {:induction false} MembersJsonAt(ms: seq<(string, Flat)>)
    ensures |MembersJson(ms)| == |ms|
    ensures forall k :: 0 <= k < |ms| ==> MembersJson(ms)[k] == (ms[k].0, FlatJson(ms[k].1))
  {
    if ms != [] {
      MembersJsonAt(ms[1..]);
    }
  }

  lemma {:induction false} PropertyIsLast(members: seq<(string, Json)>, k: nat)
    requires k < |members| && forall l :: k < l < |members| ==> members[l].0 != members[k].0
    ensures Property(members, members[k].0) == Some(members[k].1)
  {
    var n := |members| - 1;
    if k < n {
      assert members[n].0 != members[k].0;
      PropertyIsLast(members[..n], k);
    }
  }

  const FIELDS := ["purpose", "organizationId", "userId", "returnTo", "issuedAt", "nonce"]

  lemma FieldsDiffer(i: nat, j: nat)
    requires i < j < 6
    ensures FIELDS[i] != FIELDS[j]
  {
    assert |FIELDS[0]| == 7 && |FIELDS[1]| == 14 && |FIELDS[2]| == 6
           && |FIELDS[3]| == 8 && |FIELDS[4]| == 8 && |FIELDS[5]| == 5;
    assert FIELDS[3][0] == 'r' && FIELDS[4][0] == 'i';
  }

  lemma FieldReadsBack(ms: seq<(string, Flat)>, k: nat)
    requires |ms| == 6 && k < 6 && forall i :: 0 <= i < 6 ==> ms[i].0 == FIELDS[i]
    ensures Property(MembersJson(ms), FIELDS[k]) == Some(FlatJson(ms[k].1))
  {
    MembersJsonAt(ms);
    forall l | k < l < 6
      ensures MembersJson(ms)[l].0 != MembersJson(ms)[k].0
    {
      FieldsDiffer(k, l);
    }
    PropertyIsLast(MembersJson(ms), k);
  }

  /** A flat record survives the whole way there and back. */
  lemma RecordCarried(ms: seq<(string, Flat)>)
    requires ms != []
    ensures Carried(ToBase64Url(Stringify(ms))) == AsState(JObject(MembersJson(ms)))
  {
    TextReadsBack(Stringify(ms));
    RecordReadsBack(ms);
  }

  lemma PayloadIsState(purpose: Purpose, organizationId: string, userId: string, returnTo: string,
      issuedAt: Millis, nonce: string)
    ensures AsState(JObject(MembersJson(Payload(purpose, organizationId, userId, returnTo, issuedAt, nonce))))
         == Some(State(purpose, organizationId, userId, returnTo, issuedAt as real, nonce))
  {
    var ms := Payload(purpose, organizationId, userId, returnTo, issuedAt, nonce);
    MillisAreFinite(issuedAt);
    FieldReadsBack(ms, 0);
    FieldReadsBack(ms, 1);
    FieldReadsBack(ms, 2);
    FieldReadsBack(ms, 3);
    FieldReadsBack(ms, 4);
    FieldReadsBack(ms, 5);
  }

  lemma SixMembers(ms: seq<(string, Flat)>)
    requires |ms| == 6
    ensures MembersText(ms)
         == MemberText(ms[0]) + "," + (MemberText(ms[1]) + "," + (MemberText(ms[2]) + ","
            + (MemberText(ms[3]) + "," + (MemberText(ms[4]) + "," + MemberText(ms[5])))))
  {
    hide MemberText;
    assert ms[1..][1..] == ms[2..] && ms[2..][1..] == ms[3..] && ms[3..][1..] == ms[4..] && ms[4..][1..] == ms[5..];
    assert MembersText(ms[5..]) == MemberText(ms[5]);
    assert MembersText(ms[4..]) == MemberText(ms[4]) + "," + MembersText(ms[5..]);
    assert MembersText(ms[3..]) == MemberText(ms[3]) + "," + MembersText(ms[4..]);
    assert MembersText(ms[2..]) == MemberText(ms[2]) + "," + MembersText(ms[3..]);
    assert MembersText(ms[1..]) == MemberText(ms[1]) + "," + MembersText(ms[2..]);
  }

  /** The JSON text of a state, member by member. */
  function StateText(
    purpose: string, organizationId: string, userId: string, returnTo: string, issuedAt: int, nonce: string): string
  {
    "{" + (Quote("purpose") + ":" + Quote(purpose) + ","
           + (Quote("organizationId") + ":" + Quote(organizationId) + ","
           + (Quote("userId") + ":" + Quote(userId) + ","
           + (Quote("returnTo") + ":" + Quote(returnTo) + ","
           + (Quote("issuedAt") + ":" + IntText(issuedAt) + ","
           + (Quote("nonce") + ":" + Quote(nonce))))))) + "}"
  }

  lemma PayloadText(purpose: Purpose, organizationId: string, userId: string, returnTo: string,
      issuedAt: Millis, nonce: string)
    ensures Stringify(Payload(purpose, organizationId, userId, returnTo, issuedAt, nonce))
         == StateText(if purpose == Jira then "jira" else "github", organizationId, userId, returnTo, issuedAt, nonce)
  {
    hide Quote, IntText, MembersText;
    SixMembers(Payload(purpose, organizationId, userId, returnTo, issuedAt, nonce));
  }

  /** The text a minted string carries before its signature. */
  lemma MintedText(
    digest: Digest, secret: string, purpose: Purpose, organizationId: string, userId: string, returnTo: string,
    issuedAt: Millis, nonce: string)
    returns (body: string)
    ensures SignedAs(digest, secret,
                     SignState(digest, secret, Payload(purpose, organizationId, userId, returnTo, issuedAt, nonce)),
                     body)
    ensures FromBase64Url(body)
         == StateText(if purpose == Jira then "jira" else "github", organizationId, userId, returnTo, issuedAt, nonce)
  {
    var ms := Payload(purpose, organizationId, userId, returnTo, issuedAt, nonce);
    assert Stringify(ms) != [];
    hide Stringify, StateText, ToBase64Url, FromBase64Url;
    body := ToBase64Url(Stringify(ms));
    TextReadsBack(Stringify(ms));
    PayloadText(purpose, organizationId, userId, returnTo, issuedAt, nonce);
  }

  /** Verifying a minted string: the full outcome, every field unchanged. */
  lemma MintedThenVerified(
    digest: Digest, secret: string, minted: Purpose, organizationId: string, userId: string, returnTo: string,
    issuedAt: Millis, nonce: string, purpose: Purpose, user: string, now: real)
    ensures VerifyState(digest, secret, purpose,
              Some(SignState(digest, secret, Payload(minted, organizationId, userId, returnTo, issuedAt, nonce))),
               user, now)
         == if !InWindow(issuedAt as real, now) then Refused(Expired)
            else if minted != purpose then Refused(WrongPurpose)
            else if userId != user then Refused(WrongUser)
            else Accepted(State(minted, organizationId, userId, returnTo, issuedAt as real, nonce))
  {
    var payload := Payload(minted, organizationId, userId, returnTo, issuedAt, nonce);
    var body := ToBase64Url(Stringify(payload));
    TextReadsBack(Stringify(payload));
    RecordCarried(payload);
    PayloadIsState(minted, organizationId, userId, returnTo, issuedAt, nonce);
    OutcomeOfSigned(digest, secret, purpose, body + "." + Sign(digest, secret, body), user, now, body);
  }
}
