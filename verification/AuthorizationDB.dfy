/** The authorization database and service as they run: read a group, change it in place, put it
    back (certificate/authorization/db.go, service.go). */
module AuthorizationDB {
  import opened Wrappers
  import opened Keys
  import opened Authorization
  import opened AuthorizationResults

  class DB {
    var store: Store

    constructor ()
      ensures store == map[]
    {
      store := map[];
    }

    /** The group of a user, None when the database has no such key. */
    method Get(userID: string) returns (group: Option<Group>)
      ensures group == if userID in store then Some(store[userID]) else None
    {
      group := if userID in store then Some(store[userID]) else None;
    }

    method Put(userID: string, auths: Group)
      modifies this
      ensures store == old(store)[userID := auths]
    {
      store := store[userID := auths];
    }

    method Add(userID: string, newAuths: Group)
      modifies this
      ensures store == old(store)[userID := GroupOf(old(store), userID) + newAuths]
    {
      var found := Get(userID);
      var auths := if found.Some? then found.value else [];
      auths := auths + newAuths;
      Put(userID, auths);
    }

    /** The token data that the random source hands out is a parameter. */
    method Create(userID: string, count: int, random: seq<seq<Byte>>) returns (newAuths: Group, error: Option<Error>)
      requires count <= |random|
      modifies this
      ensures var datas := if count < 1 then [] else random[..count];
              && store == DoCreate(old(store), userID, datas).0
              && DoCreate(old(store), userID, datas).1 ==
                 (if error.Some? then Failed(error.value) else Created(Tokens(newAuths)))
              && (error.None? ==> newAuths == NewAuths(userID, datas))
      ensures error == if userID == "" then Some(EmptyUserID) else if count < 1 then Some(BadCount) else None
      ensures error.None? ==>
        && Appends(old(store), store, userID, random[..count])
        && |newAuths| == count
        && forall k :: 0 <= k < count ==> newAuths[k] == Auth(Token(userID, random[k]), None)
      ensures error.Some? ==> store == old(store)
    {
      newAuths, error := [], None;
      if |userID| == 0 {
        error := Some(EmptyUserID);
        return;
      }
      if count < 1 {
        error := Some(BadCount);
        return;
      }
      for i := 0 to count
        invariant newAuths == NewAuths(userID, random[..i])
      {
        newAuths := newAuths + [Auth(Token(userID, random[i]), None)];
      }
      CreateAppends(store, userID, random[..count]);
      Add(userID, newAuths);
    }

    /** Marks the first entry with the token as claimed. */
    method Claim(c: Codec, opts: ClaimOpts) returns (r: Outcome)
      modifies this
      ensures (store, r) == DoClaim(c, old(store), opts)
      ensures ClaimIs(c, old(store), opts, store, r)
    {
      DoClaimIs(c, store, opts);
      var now, reqTime := opts.now, opts.timestamp * SECOND;
      if now - reqTime > MAX_CLOCK_SKEW || reqTime - now > MAX_CLOCK_SKEW {
        return Failed(BadTimestamp);
      }
      if opts.identity.None? {
        return Failed(BadIdentity);
      }
      if opts.difficulty < opts.minDifficulty {
        return Failed(LowDifficulty);
      }
      var parsed := ParseToken(c, opts.authToken);
      if parsed.BadToken? {
        return Failed(InvalidToken);
      }
      var token := parsed.token;
      var found := Get(token.userID);
      if found.None? {
        return Failed(NoSuchUser);
      }
      var auths := found.value;
      var foundMatch := false;
      var i := 0;
      while i < |auths|
        invariant 0 <= i <= |auths|
        invariant !foundMatch && store == old(store) && auths == found.value
        invariant forall j :: 0 <= j < i ==> auths[j].token != token
      {
        if auths[i].token == token {
          FindIs(auths, token, i);
          foundMatch := true;
          if auths[i].claim.Some? {
            return Failed(AlreadyClaimed);
          }
          auths := auths[i := Auth(auths[i].token, Some(ClaimFor(opts)))];
          Put(token.userID, auths);
          break;
        }
        i := i + 1;
      }
      if !foundMatch {
        return Failed(NoSuchToken);
      }
      r := Claimed(token);
    }

    /** Removes the claim of the first entry with the token. */
    method Unclaim(c: Codec, authToken: string) returns (r: Outcome)
      modifies this
      ensures (store, r) == DoUnclaim(c, old(store), authToken)
      ensures UnclaimIs(c, old(store), authToken, store, r)
    {
      DoUnclaimIs(c, store, authToken);
      var parsed := ParseToken(c, authToken);
      if parsed.BadToken? {
        return Failed(InvalidToken);
      }
      var token := parsed.token;
      var found := Get(token.userID);
      if found.None? {
        return Failed(NoSuchUser);
      }
      var auths := found.value;
      for i := 0 to |auths|
        invariant store == old(store) && auths == found.value
        invariant forall j :: 0 <= j < i ==> auths[j].token != token
      {
        if auths[i].token == token {
          FindIs(auths, token, i);
          auths := auths[i := auths[i].(claim := None)];
          Put(token.userID, auths);
          return Unclaimed(token);
        }
      }
      r := Failed(NoSuchToken);
    }
  }

  /** The tokens of a group, in order. */
  function Tokens(g: Group): seq<Token> {
    seq(|g|, i requires 0 <= i < |g| => g[i].token)
  }

  class Service {
    const db: DB

    constructor (db: DB)
      ensures this.db == db
    {
      this.db := db;
    }

    /** The first open token of the user, or a new one when there is none. */
    method GetOrCreate(userID: string, data: seq<Byte>) returns (r: Outcome)
      modifies db
      ensures (db.store, r) == DoGetOrCreate(old(db.store), userID, data)
      ensures GetOrCreateIs(old(db.store), userID, data, db.store, r)
    {
      DoGetOrCreateIs(db.store, userID, data);
      if userID == "" {
        return Failed(EmptyUserID);
      }
      var found := db.Get(userID);
      var existingGroup := if found.Some? then found.value else [];
      for i := 0 to |existingGroup|
        invariant db.store == old(db.store)
        invariant forall j :: 0 <= j < i ==> existingGroup[j].claim.Some?
      {
        if existingGroup[i].claim.None? {
          FirstOpenIs(existingGroup, i);
          return Got(existingGroup[i].token);
        }
      }
      var createdGroup, error := db.Create(userID, 1, [data]);
      assert [data][..1] == [data];
      assert error.None?;
      r := Got(createdGroup[0].token);
    }
  }

  lemma FirstOpenIs(g: Group, i: nat)
    requires i < |g| && g[i].claim.None? && forall j :: 0 <= j < i ==> g[j].claim.Some?
    ensures FirstOpen(g) == i
  {
  }
}
