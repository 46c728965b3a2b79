/** Creating a workspace under the first free handle: the form's retry loop and the server's answer to it. */
module CreateOrganization {
  import opened Text
  import opened Handles

  const CREATE_ATTEMPTS := 5
  const TAKEN_CODE := "ORGANIZATION_SLUG_ALREADY_TAKEN"
  const TAKEN_PHRASE := "handle is taken"
  const TAKEN_MESSAGE := "That workspace " + TAKEN_PHRASE + "."
  const INVALID_CODE := "INVALID_ORGANIZATION_SLUG"
  const INVALID_MESSAGE := "Workspace handle: not a handle."

  // ---- the server ---------------------------------------------------------

  datatype Failure = Failure(code: Option<string>, message: Option<string>)

  datatype Response = Created(slug: string) | Refused(failure: Failure) | Threw

  /**
   * How a request fares beside the handle: it is answered, it is refused for
   * another reason, such as the organization limit, or it throws, its create
   * stored all the same or not.
   */
  datatype Fate = Plain | Limited(failure: Failure) | Lost(landed: bool)

  /** The create endpoint, as its hook guards it: one namespace of taken handles. */
  class Server {
    var taken: set<string>

    constructor (taken: set<string>)
      ensures this.taken == taken
    {
      this.taken := taken;
    }

    method Create(raw: string) returns (response: Response)
      modifies this
      ensures response == Answer(old(taken), raw)
      ensures taken == Stored(old(taken), raw)
    {
      match Normalize(raw)
      case Invalid =>
        response := Refused(Failure(Some(INVALID_CODE), Some(INVALID_MESSAGE)));
      case Handle(handle, _) =>
        if handle in taken {
          response := Refused(Failure(Some(TAKEN_CODE), Some(TAKEN_MESSAGE)));
        } else {
          taken := taken + {handle};
          response := Created(handle);
        }
    }
  }

  /** What a create is told, given the handles taken. */
  function Answer(taken: set<string>, raw: string): Response {
    match Normalize(raw)
    case Invalid => Refused(Failure(Some(INVALID_CODE), Some(INVALID_MESSAGE)))
    case Handle(handle, _) =>
      if handle in taken then Refused(Failure(Some(TAKEN_CODE), Some(TAKEN_MESSAGE))) else Created(handle)
  }

  /** The handles taken behind it. */
  function Stored(taken: set<string>, raw: string): set<string> {
    if Answer(taken, raw).Created? then taken + {Answer(taken, raw).slug} else taken
  }

  /** What the form is told. */
  function Reply(taken: set<string>, raw: string, fate: Fate): Response {
    match fate
    case Plain => Answer(taken, raw)
    case Limited(failure) => Refused(failure)
    case Lost(_) => Threw
  }

  function Behind(taken: set<string>, raw: string, fate: Fate): set<string> {
    if fate == Plain || fate == Lost(true) then Stored(taken, raw) else taken
  }

  // ---- the form -----------------------------------------------------------

  predicate Includes(s: string, part: string) {
    exists i :: 0 <= i <= |s| && part <= s[i..]
  }

  /** Read on the code, or on the message should the code move. */
  predicate IsHandleTaken(failure: Failure) {
    || failure.code == Some(TAKEN_CODE)
    || Includes(Lower(if failure.message.Some? then failure.message.value else ""), TAKEN_PHRASE)
  }

  /** `slice(0, end)`: a negative end counts from the back. */
  function Slice0(s: string, end: int): string {
    if end < 0 then (if |s| + end > 0 then s[..|s| + end] else "")
    else if end < |s| then s[..end] else s
  }

  function Suffix(attempt: nat): string {
    "-" + Decimal(attempt)
  }

  /** The numbered variant of a stem, never longer than a handle may be. */
  function SuffixHandle(stem: string, attempt: nat): string {
    Slice0(stem, HANDLE_MAX_LENGTH - |Suffix(attempt)|) + Suffix(attempt)
  }

  function Candidate(slug: string, attempt: nat): string {
    if attempt == 1 then slug else SuffixHandle(slug, attempt)
  }

  function Candidates(slug: string, n: nat): (r: seq<string>)
    ensures |r| == n && forall i :: 0 <= i < n ==> r[i] == Candidate(slug, i + 1)
  {
    seq(n, i requires 0 <= i < n => Candidate(slug, i + 1))
  }

  datatype Outcome = Opened(slug: string) | Reported(message: string)

  /** The handles tried before attempt `n` are all taken. */
  predicate TakenBefore(slug: string, n: nat, taken: set<string>) {
    forall a :: 1 <= a < n ==> Candidate(slug, a) in taken
  }

  /** A handle's create is refused as taken, recognisably so, or stores that very handle. */
  lemma AnswerToHandle(taken: set<string>, handle: string)
    requires IsHandle(handle)
    ensures var answer := Answer(taken, handle);
            if handle in taken then
              answer.Refused? && IsHandleTaken(answer.failure) && answer.failure.message == Some(TAKEN_MESSAGE)
            else answer == Created(handle)
  {
    HandleIsItsOwnForm(handle);
  }

  /** What is stored and told of any text is its normal form, not what was typed. */
  lemma CreateStoresNormalForm(taken: set<string>, raw: string)
    requires Normalize(raw).Handle? && Normalize(raw).handle !in taken
    ensures Answer(taken, raw) == Created(Normalize(raw).handle)
    ensures Stored(taken, raw) == taken + {Normalize(raw).handle}
  {
  }

  /** One request of the form's: the endpoint asked for a handle. */
  method Request(server: Server, handle: string, fate: Fate) returns (response: Response)
    requires IsHandle(handle)
    modifies server
    ensures response == Reply(old(server.taken), handle, fate)
    ensures server.taken == Behind(old(server.taken), handle, fate)
    ensures (fate == Plain || fate == Lost(true)) && handle !in old(server.taken) ==>
              server.taken == old(server.taken) + {handle}
    ensures fate !in {Plain, Lost(true)} || handle in old(server.taken) ==> server.taken == old(server.taken)
    ensures fate.Lost? ==> response == Threw
    ensures fate.Limited? ==> response == Refused(fate.failure)
    ensures fate == Plain && handle !in old(server.taken) ==> response == Created(handle)
  {
    AnswerToHandle(server.taken, handle);
    response := Threw;
    if fate == Plain || fate == Lost(true) {
      response := server.Create(handle);
    }
    match fate
    case Plain =>
    case Limited(failure) => response := Refused(failure);
    case Lost(_) => response := Threw;
  }

  const DEFAULT_MESSAGE := "Could not create that workspace."

  /** An attempt the form follows with another: refused as taken, and nothing stored. */
  predicate Retried(slug: string, attempt: nat, taken: set<string>, fates: seq<Fate>)
    requires 1 <= attempt <= |fates|
  {
    var reply := Reply(taken, Candidate(slug, attempt), fates[attempt - 1]);
    reply.Refused? && IsHandleTaken(reply.failure)
  }

  /** What the last attempt's reply makes of the form. */
  function Shown(reply: Response): Outcome {
    match reply
    case Created(slug) => Opened(slug)
    case Refused(failure) => Reported(if failure.message.Some? then failure.message.value else DEFAULT_MESSAGE)
    case Threw => Reported(DEFAULT_MESSAGE)
  }

  /** Where the form stops. */
  predicate StopsAt(slug: string, n: nat, taken: set<string>, fates: seq<Fate>)
    requires |fates| == CREATE_ATTEMPTS
  {
    && 1 <= n <= CREATE_ATTEMPTS && (forall a :: 1 <= a < n ==> Retried(slug, a, taken, fates))
    && (n < CREATE_ATTEMPTS ==> !Retried(slug, n, taken, fates))
  }

  /**
   * The submit handler's loop. It asks again exactly while it is told the
   * handle is taken and attempts are left, and shows what the last came to.
   */
  method Attempts(server: Server, slug: string, fates: seq<Fate>) returns (outcome: Outcome, requests: seq<string>)
    requires IsHandle(slug) && |fates| == CREATE_ATTEMPTS
    modifies server
    ensures StopsAt(slug, |requests|, old(server.taken), fates) && requests == Candidates(slug, |requests|)
    ensures var last := Candidate(slug, |requests|);
            && outcome == Shown(Reply(old(server.taken), last, fates[|requests| - 1]))
            && server.taken == Behind(old(server.taken), last, fates[|requests| - 1])
  {
    hide IsHandle, Answer, IsHandleTaken, Candidate;
    requests := [];
    for attempt := 1 to CREATE_ATTEMPTS + 1
      invariant server.taken == old(server.taken)
      invariant attempt <= CREATE_ATTEMPTS && requests == Candidates(slug, attempt - 1)
      invariant forall a :: 1 <= a < attempt ==> Retried(slug, a, server.taken, fates)
    {
      var candidate := Candidate(slug, attempt);
      CandidateIsHandle(slug, attempt);
      var response := Request(server, candidate, fates[attempt - 1]);
      requests := requests + [candidate];
      match response
      case Refused(failure) =>
        if IsHandleTaken(failure) && attempt < CREATE_ATTEMPTS {
          continue;
        }
        return Reported(if failure.message.Some? then failure.message.value else DEFAULT_MESSAGE), requests;
      case Created(stored) =>
        return Opened(stored), requests;
      case Threw =>
        return Reported(DEFAULT_MESSAGE), requests;
    }
    assert false;
  }

  /** The submit handler; its button is off unless the slug is a handle. */
  method Submit(server: Server, slug: string, fates: seq<Fate>) returns (outcome: Outcome, requests: seq<string>)
    requires IsHandle(slug) && |fates| == CREATE_ATTEMPTS
    modifies server
    ensures StopsAt(slug, |requests|, old(server.taken), fates) && requests == Candidates(slug, |requests|)
    ensures outcome == Shown(Reply(old(server.taken), requests[|requests| - 1], fates[|requests| - 1]))
    ensures server.taken == Behind(old(server.taken), requests[|requests| - 1], fates[|requests| - 1])
    ensures Asked(slug, requests) && Settled(slug, requests, outcome, old(server.taken), server.taken, fates)
    ensures Persisted(requests, outcome, old(server.taken), fates)
  {
    hide IsHandle, Candidate, Shown, Reply, Behind, Asked, Settled, Persisted;
    outcome, requests := Attempts(server, slug, fates);
    CandidatesAre(slug, |requests|);
    StopSettles(slug, |requests|, old(server.taken), fates);
    StopPersists(slug, |requests|, old(server.taken), fates);
  }

  /** The slug itself, then numbered variants of it that leave room for their number. */
  ghost predicate Asked(slug: string, requests: seq<string>) {
    && requests != [] && requests[0] == slug
    && forall a :: 2 <= a <= |requests| ==>
         requests[a - 1] == (if |slug| <= 28 then slug else slug[..28]) + ("-" + Decimal(a))
  }

  lemma CandidatesAre(slug: string, n: nat)
    requires 1 <= n <= CREATE_ATTEMPTS
    ensures Asked(slug, Candidates(slug, n))
  {
    forall a | 2 <= a <= n
      ensures Candidate(slug, a) == (if |slug| <= 28 then slug else slug[..28]) + ("-" + Decimal(a))
    {
      assert |Suffix(a)| == 2;
    }
  }

  /**
   * What the form comes to where its requests are answered: a free slug is
   * asked for alone, stored and opened; else the first request that is free
   * is, or all five are taken, nothing is stored and that is said.
   */
  ghost predicate Settled(
    slug: string, requests: seq<string>, outcome: Outcome, taken: set<string>, behind: set<string>, fates: seq<Fate>)
  {
    && requests != [] && fates != []
    && (fates[0] == Plain && slug !in taken ==>
          requests == [slug] && outcome == Opened(slug) && behind == taken + {slug})
    && ((forall fate :: fate in fates ==> fate == Plain) ==>
          var last := requests[|requests| - 1];
          && (forall i :: 0 <= i < |requests| - 1 ==> requests[i] in taken)
          && if last in taken
             then |requests| == 5 && outcome == Reported("That workspace handle is taken.") && behind == taken
             else outcome == Opened(last) && behind == taken + {last})
  }

  predicate ToldTaken(reply: Response) {
    reply.Refused? && IsHandleTaken(reply.failure)
  }

  /**
   * However the requests fare, each but the last was refused as taken, and the
   * last is not unless it is the fifth; what it came to is shown.
   */
  predicate Persisted(requests: seq<string>, outcome: Outcome, taken: set<string>, fates: seq<Fate>) {
    && 1 <= |requests| <= 5 == |fates|
    && (forall i :: 0 <= i < |requests| - 1 ==> ToldTaken(Reply(taken, requests[i], fates[i])))
    && var n := |requests| - 1;
       var reply := Reply(taken, requests[n], fates[n]);
       && (n < 4 ==> !ToldTaken(reply))
       && (reply.Created? ==> outcome == Opened(reply.slug))
       && (reply.Threw? ==> outcome == Reported("Could not create that workspace."))
       && (reply.Refused? ==>
             outcome == Reported(if reply.failure.message.Some? then reply.failure.message.value
                                 else "Could not create that workspace."))
  }

  lemma StopPersists(slug: string, n: nat, taken: set<string>, fates: seq<Fate>)
    requires |fates| == CREATE_ATTEMPTS && StopsAt(slug, n, taken, fates)
    ensures Persisted(Candidates(slug, n), Shown(Reply(taken, Candidate(slug, n), fates[n - 1])), taken, fates)
  {
    hide Reply, IsHandleTaken, Candidate;
    forall i | 0 <= i < n - 1 ensures ToldTaken(Reply(taken, Candidates(slug, n)[i], fates[i])) {
      assert Retried(slug, i + 1, taken, fates);
    }
  }

  lemma StopSettles(slug: string, n: nat, taken: set<string>, fates: seq<Fate>)
    requires IsHandle(slug) && |fates| == CREATE_ATTEMPTS && StopsAt(slug, n, taken, fates)
    ensures var last, fate := Candidate(slug, n), fates[n - 1];
            Settled(slug, Candidates(slug, n), Shown(Reply(taken, last, fate)), taken, Behind(taken, last, fate), fates)
  {
    hide IsHandle, Answer, Normalize, IsHandleTaken, SuffixHandle, Stored;
    AnswerToHandle(taken, slug);
    if fates[0] == Plain && slug !in taken {
      FirstIsFree(slug, n, taken, fates);
    }
    if forall fate :: fate in fates ==> fate == Plain {
      assert fates[n - 1] in fates;
      FirstFreeIsStored(slug, n, taken, fates);
      assert forall i :: 0 <= i < n - 1 ==> Candidates(slug, n)[i] == Candidate(slug, i + 1);
      hide Candidate, Reply, Behind, Shown;
    }
  }

  lemma FirstIsFree(slug: string, n: nat, taken: set<string>, fates: seq<Fate>)
    requires IsHandle(slug) && |fates| == CREATE_ATTEMPTS && StopsAt(slug, n, taken, fates)
    requires fates[0] == Plain && slug !in taken
    ensures n == 1 && Candidate(slug, n) == slug && Behind(taken, slug, Plain) == taken + {slug}
    ensures Shown(Reply(taken, slug, Plain)) == Opened(slug)
  {
    hide Normalize, IsHandleTaken;
    RetriedMeansTaken(slug, 1, taken, fates);
    AnswerToHandle(taken, slug);
  }

  /** With requests that are answered, an attempt is retried exactly when its candidate is taken. */
  lemma RetriedMeansTaken(slug: string, attempt: nat, taken: set<string>, fates: seq<Fate>)
    requires IsHandle(slug) && 1 <= attempt <= CREATE_ATTEMPTS == |fates| && fates[attempt - 1] == Plain
    ensures Retried(slug, attempt, taken, fates) <==> Candidate(slug, attempt) in taken
  {
    CandidateIsHandle(slug, attempt);
    AnswerToHandle(taken, Candidate(slug, attempt));
  }

  /** Over answered requests it stores the first free candidate, or says that all are taken. */
  lemma FirstFreeIsStored(slug: string, n: nat, taken: set<string>, fates: seq<Fate>)
    requires IsHandle(slug) && |fates| == CREATE_ATTEMPTS && (forall fate :: fate in fates ==> fate == Plain)
    requires StopsAt(slug, n, taken, fates)
    ensures TakenBefore(slug, n, taken)
    ensures var last := Candidate(slug, n);
            if last in taken then
              && n == CREATE_ATTEMPTS && Behind(taken, last, Plain) == taken
              && Shown(Reply(taken, last, Plain)) == Reported(TAKEN_MESSAGE)
            else
              && Behind(taken, last, Plain) == taken + {last}
              && Shown(Reply(taken, last, Plain)) == Opened(last)
  {
    forall a: nat | 1 <= a <= CREATE_ATTEMPTS
      ensures Retried(slug, a, taken, fates) <==> Candidate(slug, a) in taken
    {
      assert fates[a - 1] in fates;
      RetriedMeansTaken(slug, a, taken, fates);
    }
    CandidateIsHandle(slug, n);
    AnswerToHandle(taken, Candidate(slug, n));
  }

  // ---- suffixed handles ---------------------------------------------------

  lemma DigitsHaveNoHyphen(s: string)
    requires AllDigits(s)
    ensures '-' !in s
  {
  }

  lemma SuffixStarts(stem: string, attempt: nat)
    ensures var r, cut := SuffixHandle(stem, attempt), Slice0(stem, HANDLE_MAX_LENGTH - |Suffix(attempt)|);
            LastIndexOf(r, '-') == |cut| && r[|cut| + 1..] == Decimal(attempt)
  {
    var cut, digits := Slice0(stem, HANDLE_MAX_LENGTH - |Suffix(attempt)|), Decimal(attempt);
    var r := cut + "-" + digits;
    Assoc(cut, "-", digits);
    DigitsHaveNoHyphen(digits);
    assert r[|cut|] == '-';
    forall k | |cut| < k < |r|
      ensures r[k] != '-'
    {
      assert r[k] == digits[k - |cut| - 1];
    }
  }

  /** Suffixed candidates of one stem differ for all attempt numbers. */
  lemma SuffixesDiffer(stem: string, a: nat, b: nat)
    requires SuffixHandle(stem, a) == SuffixHandle(stem, b)
    ensures a == b
  {
    SuffixStarts(stem, a);
    SuffixStarts(stem, b);
    DecimalValue(a);
    DecimalValue(b);
  }

  /** It is the bare stem exactly when a full-length stem already ends in that suffix. */
  lemma SuffixIsStem(stem: string, attempt: nat)
    requires |stem| <= HANDLE_MAX_LENGTH && |Suffix(attempt)| <= HANDLE_MAX_LENGTH
    ensures SuffixHandle(stem, attempt) == stem
       <==> |stem| == HANDLE_MAX_LENGTH && EndsWith(stem, Suffix(attempt))
  {
    var suffix := Suffix(attempt);
    var cut := Slice0(stem, HANDLE_MAX_LENGTH - |suffix|);
    Halves(cut, suffix);
    if |stem| == HANDLE_MAX_LENGTH {
      assert cut == stem[..|stem| - |suffix|];
      assert stem == stem[..|stem| - |suffix|] + stem[|stem| - |suffix|..];
    }
  }

  /** Every handle the form tries is one the server takes as it is. */
  lemma CandidateIsHandle(slug: string, attempt: nat)
    requires IsHandle(slug) && 1 <= attempt <= CREATE_ATTEMPTS
    ensures IsHandle(Candidate(slug, attempt))
  {
    assert |Suffix(attempt)| == 2;
  }

  lemma LowerAppend(a: string, b: string)
    ensures Lower(a + b) == Lower(a) + Lower(b)
  {
  }

  lemma IncludesMiddle(a: string, part: string, b: string)
    ensures Includes(a + part + b, part)
  {
    Assoc(a, part, b);
    Halves(a, part + b);
    assert part <= (a + part + b)[|a|..];
  }

  /** The phrase is in lower case already. */
  lemma PhraseIsLower()
    ensures Lower(TAKEN_PHRASE) == TAKEN_PHRASE
  {
  }

  predicate PhraseAt(message: string, i: nat) {
    i + 15 <= |message| && Lower(message[i..i + 15]) == "handle is taken"
  }

  lemma LowerPart(message: string, i: nat)
    requires i + 15 <= |message|
    ensures Lower(message)[i..i + 15] == Lower(message[i..i + 15])
  {
  }

  /** A failure is read as a taken handle exactly by its code, or by the phrase anywhere in its message, in any case. */
  lemma RecognisedExactly(failure: Failure)
    ensures IsHandleTaken(failure)
       <==> || failure.code == Some("ORGANIZATION_SLUG_ALREADY_TAKEN")
            || (failure.message.Some? && exists i :: PhraseAt(failure.message.value, i))
  {
    var message := if failure.message.Some? then failure.message.value else "";
    hide Lower;
    assert |TAKEN_PHRASE| == 15 && |Lower(message)| == |message|;
    if Includes(Lower(message), TAKEN_PHRASE) {
      var i :| 0 <= i <= |message| && TAKEN_PHRASE <= Lower(message)[i..];
      assert Lower(message)[i..][..15] == Lower(message)[i..i + 15];
      LowerPart(message, i);
      assert PhraseAt(message, i);
    }
    if i: nat :| PhraseAt(message, i) {
      LowerPart(message, i);
      assert Lower(message)[i..][..15] == TAKEN_PHRASE;
    }
  }

  /** Either of the two signs the server gives is enough to be recognised. */
  lemma TakenIsRecognised(code: Option<string>, message: Option<string>)
    requires code == Some(TAKEN_CODE) || message == Some(TAKEN_MESSAGE)
    ensures IsHandleTaken(Failure(code, message))
  {
    var before, phrase, after := "That workspace ", TAKEN_PHRASE, ".";
    LowerAppend(before + phrase, after);
    LowerAppend(before, phrase);
    PhraseIsLower();
    IncludesMiddle(Lower(before), phrase, Lower(after));
  }
}
