/** One-time authorization tokens and their histories, for operations that run one after
    another (certificate/authorization). */
module Authorization {
  import opened Wrappers
  import opened Keys
  import opened Sequences

  const TOKEN_DATA_LENGTH := 64
  const MAX_CLOCK_SKEW: int := 5 * 60 * 1_000_000_000  // nanoseconds
  const SECOND: int := 1_000_000_000

  datatype Token = Token(userID: string, data: seq<Byte>)

  /** Base58 with a checksum, as far as tokens depend on it. */
  datatype Codec = Codec(encode: seq<Byte> -> string, decode: string -> Option<seq<Byte>>)

  /** Encoded data has no colon and decodes to what was encoded. */
  ghost predicate Sound(c: Codec) {
    forall d :: ':' !in c.encode(d) && c.decode(c.encode(d)) == Some(d)
  }

  function Print(c: Codec, t: Token): string {
    t.userID + ":" + c.encode(t.data)
  }

  datatype TokenError = NoDelimiter | NoUserID | BadEncoding | BadSize

  datatype ParsedToken = Parsed(token: Token) | BadToken(error: TokenError)

  /** ParseToken splits at the last colon, so a user ID may itself contain colons. */
  function ParseToken(c: Codec, s: string): ParsedToken {
    var at := LastIndex(s, ':');
    if at < 0 then BadToken(NoDelimiter)
    else if s[..at] == "" then BadToken(NoUserID)
    else
      match c.decode(s[at + 1..])
      case None => BadToken(BadEncoding)
      case Some(data) => if |data| != TOKEN_DATA_LENGTH then BadToken(BadSize) else Parsed(Token(s[..at], data))
  }

  /** A printed token parses back exactly when it has a user ID and data of the right size. */
  lemma PrintedTokenParses(c: Codec, t: Token)
    requires Sound(c)
    ensures ParseToken(c, Print(c, t)) == Parsed(t) <==> t.userID != "" && |t.data| == TOKEN_DATA_LENGTH
  {
    var s := Print(c, t);
    LastIndexBefore(t.userID, c.encode(t.data), ':');
    assert s[..|t.userID|] == t.userID && s[|t.userID| + 1..] == c.encode(t.data);
  }

  // ----- the operations on a store of groups

  datatype Claim = Claim(addr: string, timestamp: int, identity: nat, chain: seq<seq<Byte>>)

  datatype Auth = Auth(token: Token, claim: Option<Claim>)

  type Group = seq<Auth>

  type Store = map<string, Group>

  /** What a claim comes with; the peer's identity may be unusable. */
  datatype ClaimOpts = ClaimOpts(
    now: int, timestamp: int, identity: Option<nat>, difficulty: nat, minDifficulty: nat,
    addr: string, chain: seq<seq<Byte>>, authToken: string)

  datatype Error =
    | EmptyUserID | BadCount | BadTimestamp | BadIdentity | LowDifficulty | InvalidToken
    | NoSuchUser | NoSuchToken | AlreadyClaimed

  datatype Outcome =
    | Created(tokens: seq<Token>) | Claimed(token: Token) | Unclaimed(token: Token) | Got(token: Token)
    | Failed(error: Error)

  /** The first entry with a token, or the length of the group. */
  function Find(g: Group, t: Token): (i: nat)
    ensures i <= |g|
    ensures i < |g| ==> g[i].token == t
    ensures forall j :: 0 <= j < i ==> g[j].token != t
  {
    if g == [] then 0 else if g[0].token == t then 0 else 1 + Find(g[1..], t)
  }

  /** The first entry that is not claimed, or the length of the group. */
  function FirstOpen(g: Group): (i: nat)
    ensures i <= |g|
    ensures i < |g| ==> g[i].claim.None?
    ensures forall j :: 0 <= j < i ==> g[j].claim.Some?
  {
    if g == [] then 0 else if g[0].claim.None? then 0 else 1 + FirstOpen(g[1..])
  }

  function GroupOf(s: Store, userID: string): Group {
    if userID in s then s[userID] else []
  }

  function NewAuths(userID: string, datas: seq<seq<Byte>>): Group {
    seq(|datas|, i requires 0 <= i < |datas| => Auth(Token(userID, datas[i]), None))
  }

  /** Everything about a claim that does not concern the store. */
  function Reject(c: Codec, opts: ClaimOpts): Option<Error> {
    if opts.now - opts.timestamp * SECOND > MAX_CLOCK_SKEW || opts.timestamp * SECOND - opts.now > MAX_CLOCK_SKEW then
      Some(BadTimestamp)
    else if opts.identity.None? then Some(BadIdentity)
    else if opts.difficulty < opts.minDifficulty then Some(LowDifficulty)
    else if ParseToken(c, opts.authToken).BadToken? then Some(InvalidToken)
    else None
  }

  function ClaimFor(opts: ClaimOpts): Claim
    requires opts.identity.Some?
  {
    Claim(opts.addr, opts.now / SECOND, opts.identity.value, opts.chain)
  }

  /** Claims a token in the store. */
  function ClaimIn(s: Store, t: Token, claim: Claim): (Store, Outcome) {
    if t.userID !in s then (s, Failed(NoSuchUser))
    else
      var g := s[t.userID];
      var i := Find(g, t);
      if i == |g| then (s, Failed(NoSuchToken))
      else if g[i].claim.Some? then (s, Failed(AlreadyClaimed))
      else (s[t.userID := g[i := Auth(t, Some(claim))]], Claimed(t))
  }

  function DoClaim(c: Codec, s: Store, opts: ClaimOpts): (Store, Outcome) {
    var rejected := Reject(c, opts);
    if rejected.Some? then (s, Failed(rejected.value))
    else ClaimIn(s, ParseToken(c, opts.authToken).token, ClaimFor(opts))
  }

  /** Removes the claim of a token in the store. */
  function UnclaimIn(s: Store, t: Token): (Store, Outcome) {
    if t.userID !in s then (s, Failed(NoSuchUser))
    else
      var g := s[t.userID];
      var i := Find(g, t);
      if i == |g| then (s, Failed(NoSuchToken))
      else (s[t.userID := g[i := Auth(t, None)]], Unclaimed(t))
  }

  function DoUnclaim(c: Codec, s: Store, authToken: string): (Store, Outcome) {
    match ParseToken(c, authToken)
    case BadToken(_) => (s, Failed(InvalidToken))
    case Parsed(t) => UnclaimIn(s, t)
  }

  function DoCreate(s: Store, userID: string, datas: seq<seq<Byte>>): (Store, Outcome) {
    if userID == "" then (s, Failed(EmptyUserID))
    else if |datas| < 1 then (s, Failed(BadCount))
    else
      (s[userID := GroupOf(s, userID) + NewAuths(userID, datas)],
       Created(seq(|datas|, i requires 0 <= i < |datas| => Token(userID, datas[i]))))
  }

  function DoGetOrCreate(s: Store, userID: string, data: seq<Byte>): (Store, Outcome) {
    if userID == "" then (s, Failed(EmptyUserID))
    else
      var g := GroupOf(s, userID);
      var i := FirstOpen(g);
      if i < |g| then (s, Got(g[i].token))
      else (s[userID := g + NewAuths(userID, [data])], Got(Token(userID, data)))
  }

  // ----- histories

  datatype Op =
    | Create(userID: string, datas: seq<seq<Byte>>)
    | ClaimOp(opts: ClaimOpts)
    | UnclaimOp(authToken: string)
    | GetOrCreate(userID: string, data: seq<Byte>)

  function Do(c: Codec, s: Store, op: Op): (Store, Outcome) {
    match op
    case Create(userID, datas) => DoCreate(s, userID, datas)
    case ClaimOp(opts) => DoClaim(c, s, opts)
    case UnclaimOp(authToken) => DoUnclaim(c, s, authToken)
    case GetOrCreate(userID, data) => DoGetOrCreate(s, userID, data)
  }

  /** The store after a history. */
  function After(c: Codec, s: Store, ops: seq<Op>): Store {
    if ops == [] then s else Do(c, After(c, s, ops[..|ops| - 1]), ops[|ops| - 1]).0
  }

  /** What the n-th operation of a history returns. */
  function OutcomeAt(c: Codec, s: Store, ops: seq<Op>, n: nat): Outcome
    requires n < |ops|
  {
    Do(c, After(c, s, ops[..n]), ops[n]).1
  }

  /** The tokens of a group only grow by appending. */
  ghost predicate Extends(s: Store, s': Store) {
    forall u :: u in s ==>
      u in s' && |s[u]| <= |s'[u]| && forall i :: 0 <= i < |s[u]| ==> s'[u][i].token == s[u][i].token
  }

  /** A group that keeps the tokens of another, in order, before any others. */
  ghost predicate GroupExtends(g: Group, g': Group) {
    |g| <= |g'| && forall i :: 0 <= i < |g| ==> g'[i].token == g[i].token
  }

  lemma UpdateExtends(s: Store, u: string, g: Group)
    requires GroupExtends(GroupOf(s, u), g)
    ensures Extends(s, s[u := g])
  {
  }

  lemma OpExtends(c: Codec, s: Store, op: Op)
    ensures Extends(s, Do(c, s, op).0)
  {
    match op
    case Create(userID, datas) => UpdateExtends(s, userID, GroupOf(s, userID) + NewAuths(userID, datas));
    case GetOrCreate(userID, data) => UpdateExtends(s, userID, GroupOf(s, userID) + NewAuths(userID, [data]));
    case ClaimOp(opts) =>
      if Reject(c, opts).None? { ClaimExtends(s, ParseToken(c, opts.authToken).token, ClaimFor(opts)); }
    case UnclaimOp(authToken) =>
      var parsed := ParseToken(c, authToken);
      if parsed.Parsed? { UnclaimExtends(s, parsed.token); }
  }

  lemma ClaimExtends(s: Store, t: Token, claim: Claim)
    ensures Extends(s, ClaimIn(s, t, claim).0)
  {
    var (s', r) := ClaimIn(s, t, claim);
    if r.Claimed? { UpdateExtends(s, t.userID, s'[t.userID]); }
  }

  lemma UnclaimExtends(s: Store, t: Token)
    ensures Extends(s, UnclaimIn(s, t).0)
  {
    var (s', r) := UnclaimIn(s, t);
    if r.Unclaimed? { UpdateExtends(s, t.userID, s'[t.userID]); }
  }

  lemma {:induction false} TokensOnlyGrow(c: Codec, s: Store, ops: seq<Op>)
    ensures Extends(s, After(c, s, ops))
  {
    if ops == [] {
    } else {
      var mid := After(c, s, ops[..|ops| - 1]);
      TokensOnlyGrow(c, s, ops[..|ops| - 1]);
      OpExtends(c, mid, ops[|ops| - 1]);
      ExtendsTransitive(s, mid, After(c, s, ops));
    }
  }

  lemma ExtendsTransitive(s: Store, s': Store, s'': Store)
    requires Extends(s, s') && Extends(s', s'')
    ensures Extends(s, s'')
  {
  }

  /** Claim and Unclaim change the claim of the first entry with their token and nothing else;
      any operation that fails changes nothing. */
  lemma ChangesOnlyTheMatch(c: Codec, s: Store, op: Op)
    requires op.ClaimOp? || op.UnclaimOp?
    ensures var (s', r) := Do(c, s, op);
            match r
            case Failed(_) => s' == s
            case Claimed(t) =>
              op.ClaimOp? && EntryBecomes(s, s', t, Some(ClaimFor(op.opts))) &&
                s[t.userID][Find(s[t.userID], t)].claim.None?
            case Unclaimed(t) => op.UnclaimOp? && EntryBecomes(s, s', t, None)
            case _ => false
  {
    match op
    case ClaimOp(opts) =>
      if Reject(c, opts).None? { ClaimChangesTheMatch(s, ParseToken(c, opts.authToken).token, ClaimFor(opts)); }
    case UnclaimOp(authToken) =>
      var parsed := ParseToken(c, authToken);
      if parsed.Parsed? { UnclaimChangesTheMatch(s, parsed.token); }
  }

  lemma ClaimChangesTheMatch(s: Store, t: Token, claim: Claim)
    ensures var (s', r) := ClaimIn(s, t, claim);
            if r.Failed? then s' == s
            else r == Claimed(t) && EntryBecomes(s, s', t, Some(claim)) && s[t.userID][Find(s[t.userID], t)].claim.None?
  {
    if ClaimIn(s, t, claim).1.Claimed? { SetEntry(s, t, Some(claim)); }
  }

  lemma UnclaimChangesTheMatch(s: Store, t: Token)
    ensures var (s', r) := UnclaimIn(s, t);
            if r.Failed? then s' == s else r == Unclaimed(t) && EntryBecomes(s, s', t, None)
  {
    if UnclaimIn(s, t).1.Unclaimed? { SetEntry(s, t, None); }
  }

  lemma SetEntry(s: Store, t: Token, claim: Option<Claim>)
    requires t.userID in s && Find(s[t.userID], t) < |s[t.userID]|
    ensures var g := s[t.userID]; EntryBecomes(s, s[t.userID := g[Find(g, t) := Auth(t, claim)]], t, claim)
  {
  }

  /** The first entry with the token has the claim, and nothing else has changed. */
  ghost predicate EntryBecomes(s: Store, s': Store, t: Token, claim: Option<Claim>) {
    && OneEntry(s, s', t)
    && s'[t.userID][Find(s[t.userID], t)] == Auth(t, claim)
  }

  ghost predicate OneEntry(s: Store, s': Store, t: Token) {
    && s'.Keys == s.Keys && t.userID in s
    && (forall u :: u in s && u != t.userID ==> s'[u] == s[u])
    && |s'[t.userID]| == |s[t.userID]| && Find(s[t.userID], t) < |s[t.userID]|
    && forall j :: 0 <= j < |s[t.userID]| ==>
      if j == Find(s[t.userID], t) then s'[t.userID][j].token == t else s'[t.userID][j] == s[t.userID][j]
  }

  /** A token is taken when its first entry is claimed. */
  predicate Taken(s: Store, t: Token) {
    var g := GroupOf(s, t.userID);
    Find(g, t) < |g| && g[Find(g, t)].claim.Some?
  }

  lemma FindIs(g: Group, t: Token, i: nat)
    requires i < |g| && g[i].token == t && forall j :: 0 <= j < i ==> g[j].token != t
    ensures Find(g, t) == i
  {
  }

  /** Only an unclaim of the token itself sets a taken token free. */
  lemma StaysTaken(c: Codec, s: Store, op: Op, t: Token)
    requires Taken(s, t) && Do(c, s, op).1 != Unclaimed(t)
    ensures Taken(Do(c, s, op).0, t) && Do(c, s, op).1 != Claimed(t)
  {
    OpExtends(c, s, op);
    var s' := Do(c, s, op).0;
    FindIs(s'[t.userID], t, Find(s[t.userID], t));
    match op
    case Create(_, _) =>
    case GetOrCreate(_, _) =>
    case ClaimOp(opts) => ClaimKeepsClaims(c, s, opts, t);
    case UnclaimOp(authToken) => UnclaimKeepsOthers(c, s, authToken, t);
  }

  lemma ClaimKeepsClaims(c: Codec, s: Store, opts: ClaimOpts, t: Token)
    requires Taken(s, t)
    ensures var i := Find(s[t.userID], t); DoClaim(c, s, opts).0[t.userID][i] == s[t.userID][i]
    ensures DoClaim(c, s, opts).1 != Claimed(t)
  {
  }

  lemma UnclaimKeepsOthers(c: Codec, s: Store, authToken: string, t: Token)
    requires Taken(s, t)
    ensures var i := Find(s[t.userID], t);
            DoUnclaim(c, s, authToken).1 != Unclaimed(t) ==> DoUnclaim(c, s, authToken).0[t.userID][i] == s[t.userID][i]
  {
  }

  lemma ClaimTakes(c: Codec, s: Store, op: Op, t: Token)
    requires Do(c, s, op).1 == Claimed(t)
    ensures !Taken(s, t) && Taken(Do(c, s, op).0, t)
  {
    var i := Find(s[t.userID], t);
    FindIs(Do(c, s, op).0[t.userID], t, i);
  }

  lemma AfterStep(c: Codec, s: Store, ops: seq<Op>, j: nat)
    requires 0 < j <= |ops|
    ensures After(c, s, ops[..j]) == Do(c, After(c, s, ops[..j - 1]), ops[j - 1]).0
  {
    assert ops[..j][..j - 1] == ops[..j - 1];
  }

  lemma {:induction false} TakenUntilUnclaimed(c: Codec, s: Store, ops: seq<Op>, t: Token, i: nat, j: nat)
    requires i < j <= |ops| && OutcomeAt(c, s, ops, i) == Claimed(t)
    requires forall k :: i < k < j ==> OutcomeAt(c, s, ops, k) != Unclaimed(t)
    ensures Taken(After(c, s, ops[..j]), t)
    decreases j
  {
    AfterStep(c, s, ops, j);
    if j == i + 1 {
      ClaimTakes(c, After(c, s, ops[..i]), ops[i], t);
    } else {
      TakenUntilUnclaimed(c, s, ops, t, i, j - 1);
      assert OutcomeAt(c, s, ops, j - 1) != Unclaimed(t);
      StaysTaken(c, After(c, s, ops[..j - 1]), ops[j - 1], t);
    }
  }

  /** A token is single-use: between two successful claims of it lies a successful unclaim. */
  lemma SingleUse(c: Codec, s: Store, ops: seq<Op>, t: Token, i: nat, j: nat)
    requires i < j < |ops| && OutcomeAt(c, s, ops, i) == Claimed(t) && OutcomeAt(c, s, ops, j) == Claimed(t)
    ensures exists k :: i < k < j && OutcomeAt(c, s, ops, k) == Unclaimed(t)
  {
    if forall k :: i < k < j ==> OutcomeAt(c, s, ops, k) != Unclaimed(t) {
      TakenUntilUnclaimed(c, s, ops, t, i, j);
      ClaimTakes(c, After(c, s, ops[..j]), ops[j], t);
    }
  }

  // ----- fresh tokens

  /** Every group holds tokens of its user, of the right size, each once. */
  ghost predicate Tidy(s: Store) {
    forall u :: u in s ==>
      && u != ""
      && (forall i :: 0 <= i < |s[u]| ==> s[u][i].token.userID == u && |s[u][i].token.data| == TOKEN_DATA_LENGTH)
      && (forall i, j :: 0 <= i < j < |s[u]| ==> s[u][i].token != s[u][j].token)
  }

  /** Random token data never repeats. */
  ghost predicate Fresh(s: Store, userID: string, datas: seq<seq<Byte>>) {
    && (forall k :: 0 <= k < |datas| ==>
         |datas[k]| == TOKEN_DATA_LENGTH && Find(GroupOf(s, userID), Token(userID, datas[k])) == |GroupOf(s, userID)|)
    && (forall k, l :: 0 <= k < l < |datas| ==> datas[k] != datas[l])
  }

  ghost predicate FreshOp(s: Store, op: Op) {
    match op
    case Create(userID, datas) => Fresh(s, userID, datas)
    case GetOrCreate(userID, data) => Fresh(s, userID, [data])
    case _ => true
  }

  lemma AppendTidy(s: Store, userID: string, datas: seq<seq<Byte>>)
    requires Tidy(s) && userID != "" && Fresh(s, userID, datas)
    ensures Tidy(s[userID := GroupOf(s, userID) + NewAuths(userID, datas)])
  {
    var g := GroupOf(s, userID);
    var g' := g + NewAuths(userID, datas);
    forall i, j | 0 <= i < j < |g'|
      ensures g'[i].token != g'[j].token
    {
      if j >= |g| {
        assert Find(g, Token(userID, datas[j - |g|])) == |g|;
      }
    }
  }

  lemma EntryKeepsTidy(s: Store, s': Store, t: Token, claim: Option<Claim>)
    requires Tidy(s) && EntryBecomes(s, s', t, claim)
    ensures Tidy(s')
  {
    var i := Find(s[t.userID], t);
    forall u | u in s'
      ensures |s'[u]| == |s[u]| && forall j :: 0 <= j < |s'[u]| ==> s'[u][j].token == s[u][j].token
    {
      assert u in s;
    }
  }

  /** With fresh random data an operation keeps every group tidy. */
  lemma OpKeepsTidy(c: Codec, s: Store, op: Op)
    requires Tidy(s) && FreshOp(s, op)
    ensures Tidy(Do(c, s, op).0)
  {
    match op
    case Create(userID, datas) =>
      if userID != "" && |datas| >= 1 { AppendTidy(s, userID, datas); }
    case GetOrCreate(userID, data) =>
      if userID != "" { AppendTidy(s, userID, [data]); }
    case ClaimOp(opts) =>
      ChangesOnlyTheMatch(c, s, op);
      var (s', r) := Do(c, s, op);
      if r.Claimed? { EntryKeepsTidy(s, s', r.token, Some(ClaimFor(opts))); }
    case UnclaimOp(_) =>
      ChangesOnlyTheMatch(c, s, op);
      var (s', r) := Do(c, s, op);
      if r.Unclaimed? { EntryKeepsTidy(s, s', r.token, None); }
  }

  /** Every operation of a history draws fresh random data. */
  ghost predicate FreshOps(c: Codec, s: Store, ops: seq<Op>) {
    forall n :: 0 <= n < |ops| ==> FreshOp(After(c, s, ops[..n]), ops[n])
  }

  lemma FreshOpsBefore(c: Codec, s: Store, ops: seq<Op>)
    requires FreshOps(c, s, ops) && ops != []
    ensures FreshOps(c, s, ops[..|ops| - 1]) && FreshOp(After(c, s, ops[..|ops| - 1]), ops[|ops| - 1])
  {
    var earlier := ops[..|ops| - 1];
    forall n | 0 <= n < |earlier|
      ensures FreshOp(After(c, s, earlier[..n]), earlier[n])
    {
      assert earlier[..n] == ops[..n];
      assert FreshOp(After(c, s, ops[..n]), ops[n]);
    }
  }

  /** From a tidy store, such as the empty one, every history of fresh operations keeps every group tidy. */
  lemma {:induction false} HistoriesStayTidy(c: Codec, s: Store, ops: seq<Op>)
    requires Tidy(s) && FreshOps(c, s, ops)
    ensures Tidy(After(c, s, ops))
  {
    if ops == [] {
      assert After(c, s, ops) == s;
    } else {
      FreshOpsBefore(c, s, ops);
      HistoriesStayTidy(c, s, ops[..|ops| - 1]);
      OpKeepsTidy(c, After(c, s, ops[..|ops| - 1]), ops[|ops| - 1]);
    }
  }

  /** From an empty store on, no two entries of the whole database ever hold the same token, and each
      names the user of its group. */
  lemma IssuedTokensAreDistinct(c: Codec, ops: seq<Op>, u: string, i: nat, v: string, j: nat)
    requires FreshOps(c, map[], ops)
    requires var s := After(c, map[], ops); u in s && i < |s[u]| && v in s && j < |s[v]|
    ensures var s := After(c, map[], ops);
            s[u][i].token.userID == u && (s[u][i].token == s[v][j].token <==> u == v && i == j)
  {
    assert Tidy(map[]);
    HistoriesStayTidy(c, map[], ops);
  }

  /** GetOrCreate creates only when every token of the user is claimed, and always returns an open token. */
  lemma CreatesOnlyWhenNoneIsOpen(s: Store, userID: string, data: seq<Byte>)
    requires userID != ""
    ensures var (s', r) := DoGetOrCreate(s, userID, data);
            && r.Got?
            && (s' != s <==> forall i :: 0 <= i < |GroupOf(s, userID)| ==> GroupOf(s, userID)[i].claim.Some?)
            && (exists i :: 0 <= i < |GroupOf(s', userID)| && GroupOf(s', userID)[i] == Auth(r.token, None))
            && (s' != s ==> s' == s[userID := GroupOf(s, userID) + [Auth(Token(userID, data), None)]])
  {
    var g := GroupOf(s, userID);
    var (s', r) := DoGetOrCreate(s, userID, data);
    assert NewAuths(userID, [data]) == [Auth(Token(userID, data), None)];
    var i := FirstOpen(g);
    assert GroupOf(s', userID)[i] == Auth(r.token, None);
  }

  /** A token is open when its first entry is there and not claimed. */
  predicate Open(s: Store, t: Token) {
    var g := GroupOf(s, t.userID);
    Find(g, t) < |g| && g[Find(g, t)].claim.None?
  }

  /** Only a claim of the token itself closes an open token. */
  lemma StaysOpen(c: Codec, s: Store, op: Op, t: Token)
    requires Open(s, t) && Do(c, s, op).1 != Claimed(t)
    ensures Open(Do(c, s, op).0, t)
  {
    OpExtends(c, s, op);
    var s' := Do(c, s, op).0;
    FindIs(s'[t.userID], t, Find(s[t.userID], t));
    match op
    case Create(_, _) =>
    case GetOrCreate(_, _) =>
    case ClaimOp(opts) => ClaimKeepsOthers(c, s, opts, t);
    case UnclaimOp(authToken) => UnclaimKeepsOpen(c, s, authToken, t);
  }

  lemma ClaimKeepsOthers(c: Codec, s: Store, opts: ClaimOpts, t: Token)
    requires Open(s, t)
    ensures var i := Find(s[t.userID], t);
            DoClaim(c, s, opts).1 != Claimed(t) ==> DoClaim(c, s, opts).0[t.userID][i] == s[t.userID][i]
  {
  }

  lemma UnclaimKeepsOpen(c: Codec, s: Store, authToken: string, t: Token)
    requires Open(s, t)
    ensures var i := Find(s[t.userID], t); DoUnclaim(c, s, authToken).0[t.userID][i].claim.None?
  {
  }

  lemma {:induction false} OpenUntilClaimed(c: Codec, s: Store, ops: seq<Op>, t: Token, j: nat)
    requires j <= |ops| && Open(s, t) && forall n :: 0 <= n < j ==> OutcomeAt(c, s, ops, n) != Claimed(t)
    ensures Open(After(c, s, ops[..j]), t)
    decreases j
  {
    if j == 0 {
      assert After(c, s, ops[..0]) == s;
    } else {
      OpenUntilClaimed(c, s, ops, t, j - 1);
      AfterStep(c, s, ops, j);
      assert OutcomeAt(c, s, ops, j - 1) != Claimed(t);
      StaysOpen(c, After(c, s, ops[..j - 1]), ops[j - 1], t);
    }
  }

  lemma ReturnedTokenIsOpen(c: Codec, s: Store, userID: string, data: seq<Byte>)
    requires Tidy(s) && userID != "" && Fresh(s, userID, [data])
    ensures var (s', r) := DoGetOrCreate(s, userID, data);
            r.Got? && Open(s', r.token) && r.token.userID == userID && |r.token.data| == TOKEN_DATA_LENGTH
  {
    var (s', r) := DoGetOrCreate(s, userID, data);
    OpKeepsTidy(c, s, GetOrCreate(userID, data));
    CreatesOnlyWhenNoneIsOpen(s, userID, data);
    var i :| 0 <= i < |GroupOf(s', userID)| && GroupOf(s', userID)[i] == Auth(r.token, None);
    FindIs(s'[userID], r.token, i);
  }
}
