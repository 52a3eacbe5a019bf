/** What the authorization operations answer and store, said of requests, tokens and entries one by one
    (certificate/authorization/db.go, service.go). */
module AuthorizationResults {
  import opened Wrappers
  import opened Keys
  import opened Sequences
  import opened Authorization

  // ----- what a request has to satisfy

  /** The text of a token: a user ID up to the last colon, and encoded data of the right size behind it. */
  ghost predicate Reads(c: Codec, text: string, t: Token) {
    exists at :: 0 <= at < |text| && ReadsAt(c, text, t, at)
  }

  predicate ReadsAt(c: Codec, text: string, t: Token, at: nat)
    requires at < |text|
  {
    && text[at] == ':' && ':' !in text[at + 1..]
    && t.userID == text[..at] && t.userID != "" && c.decode(text[at + 1..]) == Some(t.data) && |t.data| == 64
  }

  /** The request is at most five minutes off. */
  predicate Timely(opts: ClaimOpts) {
    var off := opts.now - opts.timestamp * 1_000_000_000;
    -300_000_000_000 <= off <= 300_000_000_000
  }

  /** The request comes in time, from a usable identity of sufficient difficulty. */
  predicate Admissible(opts: ClaimOpts) {
    Timely(opts) && opts.identity.Some? && opts.difficulty >= opts.minDifficulty
  }

  /** The i-th entry of the user is the first one with the token. */
  predicate FirstEntry(s: Store, t: Token, i: nat) {
    && t.userID in s && i < |s[t.userID]| && s[t.userID][i].token == t
    && forall j :: 0 <= j < i ==> s[t.userID][j].token != t
  }

  ghost predicate Known(s: Store, t: Token) {
    exists i: nat :: FirstEntry(s, t, i)
  }

  /** The token is there and has not been claimed. */
  ghost predicate IsOpen(s: Store, t: Token) {
    exists i: nat :: FirstEntry(s, t, i) && s[t.userID][i].claim == None
  }

  /** Only the claim of the first entry with the token has changed. */
  ghost predicate OnlyClaimChanges(s: Store, s': Store, t: Token, claim: Option<Claim>) {
    && s'.Keys == s.Keys && (forall u :: u in s && u != t.userID ==> s'[u] == s[u])
    && exists i: nat :: FirstEntry(s, t, i) && ClaimOfEntryIs(s, s', t, i, claim)
  }

  predicate ClaimOfEntryIs(s: Store, s': Store, t: Token, i: nat, claim: Option<Claim>)
    requires t.userID in s && t.userID in s'
  {
    && |s'[t.userID]| == |s[t.userID]| && i < |s[t.userID]|
    && (forall j :: 0 <= j < |s[t.userID]| && j != i ==> s'[t.userID][j] == s[t.userID][j])
    && s'[t.userID][i].token == t && s'[t.userID][i].claim == claim
  }

  /** A claim says who made it, from where, and in which second. */
  predicate Records(opts: ClaimOpts, claim: Claim) {
    && claim.addr == opts.addr && Some(claim.identity) == opts.identity && claim.chain == opts.chain
    && claim.timestamp * 1_000_000_000 <= opts.now < (claim.timestamp + 1) * 1_000_000_000
  }

  // ----- claims

  lemma ParsedReads(c: Codec, text: string, t: Token)
    ensures ParseToken(c, text) == Parsed(t) <==> Reads(c, text, t)
  {
    var at := LastIndex(text, ':');
    if Reads(c, text, t) {
      var k :| 0 <= k < |text| && ReadsAt(c, text, t, k);
      LastIndexIs(text, k);
    }
    if ParseToken(c, text) == Parsed(t) {
      assert ReadsAt(c, text, t, at);
    }
  }

  lemma LastIndexIs(text: string, k: nat)
    requires k < |text| && text[k] == ':' && ':' !in text[k + 1..]
    ensures LastIndex(text, ':') == k
  {
  }

  lemma FindIsFirst(s: Store, t: Token, i: nat)
    ensures FirstEntry(s, t, i) <==> t.userID in s && i == Find(s[t.userID], t) && i < |s[t.userID]|
  {
    if FirstEntry(s, t, i) {
      FindIs(s[t.userID], t, i);
    }
  }

  lemma OpenIsOpen(s: Store, t: Token)
    ensures Open(s, t) <==> IsOpen(s, t)
  {
    if Open(s, t) {
      FindIsFirst(s, t, Find(s[t.userID], t));
    }
    if IsOpen(s, t) {
      var i: nat :| FirstEntry(s, t, i) && s[t.userID][i].claim == None;
      FindIsFirst(s, t, i);
    }
  }

  lemma RejectsTheOthers(c: Codec, opts: ClaimOpts)
    ensures Reject(c, opts).None? <==> Admissible(opts) && ParseToken(c, opts.authToken).Parsed?
  {
  }

  lemma ClaimsOpenTokens(s: Store, t: Token, claim: Claim)
    ensures ClaimIn(s, t, claim).1 == Claimed(t) <==> Open(s, t)
    ensures ClaimIn(s, t, claim).1.Failed? || ClaimIn(s, t, claim).1 == Claimed(t)
  {
  }

  /** Exactly the admissible requests with the text of an open token are accepted, as a claim of that token. */
  lemma AcceptedExactly(c: Codec, s: Store, opts: ClaimOpts, t: Token)
    ensures DoClaim(c, s, opts).1 == Claimed(t) <==>
      Admissible(opts) && Reads(c, opts.authToken, t) && IsOpen(s, t)
  {
    ParsedReads(c, opts.authToken, t);
    OpenIsOpen(s, t);
    RejectsTheOthers(c, opts);
    if Reject(c, opts).None? {
      ClaimsOpenTokens(s, ParseToken(c, opts.authToken).token, ClaimFor(opts));
    }
  }

  /** An accepted claim is recorded in the first entry with the token, and nothing else changes. */
  lemma AcceptedIsRecorded(c: Codec, s: Store, opts: ClaimOpts, t: Token) returns (claim: Claim)
    requires DoClaim(c, s, opts).1 == Claimed(t)
    ensures OnlyClaimChanges(s, DoClaim(c, s, opts).0, t, Some(claim)) && Records(opts, claim)
  {
    claim := ClaimFor(opts);
    FindIsFirst(s, t, Find(s[t.userID], t));
  }

  /** Why a claim is refused: the first of the conditions that does not hold. */
  ghost predicate RefusedFor(c: Codec, s: Store, opts: ClaimOpts, error: Error) {
    match error
    case BadTimestamp => !Timely(opts)
    case BadIdentity => Timely(opts) && opts.identity.None?
    case LowDifficulty => Timely(opts) && opts.identity.Some? && opts.difficulty < opts.minDifficulty
    case InvalidToken => Admissible(opts) && forall t :: !Reads(c, opts.authToken, t)
    case NoSuchUser => Admissible(opts) && exists t :: Reads(c, opts.authToken, t) && t.userID !in s
    case NoSuchToken =>
      Admissible(opts) && exists t :: Reads(c, opts.authToken, t) && t.userID in s && !Known(s, t)
    case AlreadyClaimed => Admissible(opts) && exists t :: Reads(c, opts.authToken, t) && Known(s, t) && !IsOpen(s, t)
    case _ => false
  }

  lemma KnownIsFound(s: Store, t: Token)
    ensures Known(s, t) <==> t.userID in s && Find(s[t.userID], t) < |s[t.userID]|
  {
    if t.userID in s {
      FindIsFirst(s, t, Find(s[t.userID], t));
    }
    if Known(s, t) {
      var i: nat :| FirstEntry(s, t, i);
      FindIsFirst(s, t, i);
    }
  }

  /** A claim that is not accepted changes nothing and is refused for its reason. */
  lemma RefusedChangesNothing(c: Codec, s: Store, opts: ClaimOpts)
    requires DoClaim(c, s, opts).1.Failed?
    ensures DoClaim(c, s, opts).0 == s && RefusedFor(c, s, opts, DoClaim(c, s, opts).1.error)
  {
    var parsed := ParseToken(c, opts.authToken);
    if parsed.Parsed? {
      ParsedReads(c, opts.authToken, parsed.token);
      KnownIsFound(s, parsed.token);
      OpenIsOpen(s, parsed.token);
    } else {
      forall t
        ensures !Reads(c, opts.authToken, t)
      {
        ParsedReads(c, opts.authToken, t);
      }
    }
  }

  /** All that a claim is about. */
  ghost predicate ClaimIs(c: Codec, s: Store, opts: ClaimOpts, s': Store, r: Outcome) {
    && (forall t :: r == Claimed(t) <==> Admissible(opts) && Reads(c, opts.authToken, t) && IsOpen(s, t))
    && (r.Claimed? ==> exists claim :: OnlyClaimChanges(s, s', r.token, Some(claim)) && Records(opts, claim))
    && (!r.Claimed? ==> s' == s && r.Failed? && RefusedFor(c, s, opts, r.error))
  }

  lemma DoClaimIs(c: Codec, s: Store, opts: ClaimOpts)
    ensures ClaimIs(c, s, opts, DoClaim(c, s, opts).0, DoClaim(c, s, opts).1)
  {
    var (s', r) := DoClaim(c, s, opts);
    forall t
      ensures r == Claimed(t) <==> Admissible(opts) && Reads(c, opts.authToken, t) && IsOpen(s, t)
    {
      AcceptedExactly(c, s, opts, t);
    }
    if r.Claimed? {
      var claim := AcceptedIsRecorded(c, s, opts, r.token);
    } else {
      RefusedChangesNothing(c, s, opts);
    }
  }

  /** All that an unclaim is about: it succeeds for exactly the tokens that are there, claimed or not. */
  ghost predicate UnclaimIs(c: Codec, s: Store, text: string, s': Store, r: Outcome) {
    && (forall t :: r == Unclaimed(t) <==> Reads(c, text, t) && Known(s, t))
    && (r.Unclaimed? ==> OnlyClaimChanges(s, s', r.token, None))
    && (!r.Unclaimed? ==> r.Failed? && s' == s)
    && (r == Failed(InvalidToken) <==> forall t :: !Reads(c, text, t))
  }

  lemma DoUnclaimIs(c: Codec, s: Store, text: string)
    ensures UnclaimIs(c, s, text, DoUnclaim(c, s, text).0, DoUnclaim(c, s, text).1)
  {
    var (s', r) := DoUnclaim(c, s, text);
    forall t
      ensures r == Unclaimed(t) <==> Reads(c, text, t) && Known(s, t)
      ensures r == Failed(InvalidToken) ==> !Reads(c, text, t)
    {
      ParsedReads(c, text, t);
      KnownIsFound(s, t);
    }
    if r.Unclaimed? {
      FindIsFirst(s, r.token, Find(s[r.token.userID], r.token));
    }
    if ParseToken(c, text).Parsed? {
      ParsedReads(c, text, ParseToken(c, text).token);
    }
  }

  // ----- new tokens

  /** Open tokens of a user, with this data, are appended to the group of the user, and no other group changes. */
  ghost predicate Appends(s: Store, s': Store, userID: string, datas: seq<seq<Byte>>) {
    && s'.Keys == s.Keys + {userID} && (forall u :: u in s && u != userID ==> s'[u] == s[u])
    && var before := if userID in s then s[userID] else [];
       && |s'[userID]| == |before| + |datas| && before <= s'[userID]
       && forall k :: 0 <= k < |datas| ==>
         s'[userID][|before| + k].token == Token(userID, datas[k]) && s'[userID][|before| + k].claim == None
  }

  lemma CreateAppends(s: Store, userID: string, datas: seq<seq<Byte>>)
    requires userID != "" && |datas| >= 1
    ensures Appends(s, DoCreate(s, userID, datas).0, userID, datas)
  {
  }

  /** All that GetOrCreate is about: the first open token of the user, and a new one exactly when there is none. */
  ghost predicate GetOrCreateIs(s: Store, userID: string, data: seq<Byte>, s': Store, r: Outcome) {
    var g := if userID in s then s[userID] else [];
    if userID == "" then s' == s && r == Failed(EmptyUserID)
    else if forall i :: 0 <= i < |g| ==> g[i].claim.Some? then
      Appends(s, s', userID, [data]) && r == Got(Token(userID, data))
    else s' == s && r.Got? && exists i: nat :: FirstOpenOf(g, i) && g[i].token == r.token
  }

  predicate FirstOpenOf(g: Group, i: nat) {
    i < |g| && g[i].claim == None && forall j :: 0 <= j < i ==> g[j].claim != None
  }

  lemma DoGetOrCreateIs(s: Store, userID: string, data: seq<Byte>)
    ensures GetOrCreateIs(s, userID, data, DoGetOrCreate(s, userID, data).0, DoGetOrCreate(s, userID, data).1)
  {
    var g := if userID in s then s[userID] else [];
    assert g == GroupOf(s, userID);
    if userID != "" && FirstOpen(g) < |g| {
      assert FirstOpenOf(g, FirstOpen(g));
    }
  }

  // ----- tokens that are handed out and come back

  lemma PrintedReads(c: Codec, t: Token)
    requires Sound(c) && t.userID != "" && |t.data| == TOKEN_DATA_LENGTH
    ensures Reads(c, Print(c, t), t)
  {
    PrintedTokenParses(c, t);
    ParsedReads(c, Print(c, t), t);
  }

  /** A request with a printed token is accepted exactly when it is admissible and the token is open. */
  lemma ClaimIsAccepted(c: Codec, s: Store, t: Token, opts: ClaimOpts)
    requires Sound(c) && t.userID != "" && |t.data| == TOKEN_DATA_LENGTH && opts.authToken == Print(c, t)
    ensures DoClaim(c, s, opts).1 == Claimed(t) <==> Admissible(opts) && IsOpen(s, t)
  {
    PrintedReads(c, t);
    AcceptedExactly(c, s, opts, t);
  }

  /** The token that GetOrCreate returns, printed and sent back with a request, is found and accepted exactly when
      the request is admissible, whatever happened in between, as long as it was not claimed already; user IDs may
      contain colons. */
  lemma ReturnedTokenIsAccepted(c: Codec, s: Store, userID: string, data: seq<Byte>, ops: seq<Op>, opts: ClaimOpts)
    requires Sound(c) && Tidy(s) && userID != "" && Fresh(s, userID, [data])
    requires var (s', r) := DoGetOrCreate(s, userID, data);
             && opts.authToken == Print(c, r.token)
             && forall n :: 0 <= n < |ops| ==> OutcomeAt(c, s', ops, n) != Claimed(r.token)
    ensures var (s', r) := DoGetOrCreate(s, userID, data);
            DoClaim(c, After(c, s', ops), opts).1 == Claimed(r.token) <==> Admissible(opts)
  {
    var (s', r) := DoGetOrCreate(s, userID, data);
    ReturnedTokenIsOpen(c, s, userID, data);
    OpenUntilClaimed(c, s', ops, r.token, |ops|);
    assert ops[..|ops|] == ops;
    OpenIsOpen(After(c, s', ops), r.token);
    ClaimIsAccepted(c, After(c, s', ops), r.token, opts);
  }
}
