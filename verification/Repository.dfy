/** The database behind the repositories: two tables updated in place, with their unique indexes. */
module Repository {
  import opened Wrappers
  import opened Entities
  import opened Listing
  import P = Protocol

  lemma NewestIsUnique(a: TokenRow, b: TokenRow, rows: set<TokenRow>)
    requires DistinctIds(rows) && Newest(a, rows) && Newest(b, rows)
    ensures a == b
  {
  }

  /** The query's ORDER BY: whatever row comes next, it is one no remaining row is newer than. */
  method SortNewestFirst(rows: set<TokenRow>) returns (s: seq<TokenRow>)
    requires DistinctIds(rows)
    ensures s == Sorted(rows)
  {
    s := [];
    var rest := rows;
    while rest != {}
      invariant rest <= rows
      invariant s + Sorted(rest) == Sorted(rows)
      decreases |rest|
    {
      NewestExists(rest);
      var r :| r in rest && forall x | x in rest :: !Newer(x, r);
      ghost var head := Sorted(rest)[0];
      NewestIsUnique(r, head, rest);
      assert s + [r] + Sorted(rest - {r}) == s + Sorted(rest);
      s := s + [r];
      rest := rest - {r};
    }
    assert Sorted({}) == [];
  }

  /** The matching rows outside the digests still to visit. */
  ghost function Counted(tokens: map<Digest, TokenRow>, todo: set<Digest>, userId: Uuid, now: Instant): set<TokenRow> {
    set d | d in tokens && d !in todo && Active(tokens[d], userId, now) :: tokens[d]
  }

  lemma CountOne(tokens: map<Digest, TokenRow>, todo: set<Digest>, d: Digest, userId: Uuid, now: Instant)
    requires d in todo && d in tokens && forall d :: d in tokens ==> tokens[d].digest == d
    ensures |Counted(tokens, todo - {d}, userId, now)|
            == |Counted(tokens, todo, userId, now)| + (if Active(tokens[d], userId, now) then 1 else 0)
  {
    var before, after := Counted(tokens, todo, userId, now), Counted(tokens, todo - {d}, userId, now);
    if Active(tokens[d], userId, now) {
      assert after == before + {tokens[d]} && tokens[d] !in before;
    } else {
      assert after == before;
    }
  }

  class Database {
    var users: map<Uuid, UserRow>
    var tokens: map<Digest, TokenRow>

    ghost function View(): Store
      reads this
    {
      Store(users, tokens)
    }

    ghost predicate Valid()
      reads this
    {
      P.WellKeyed(View())
    }

    constructor ()
      ensures Valid() && View() == Store(map[], map[])
    {
      users, tokens := map[], map[];
    }

    method FindById(id: Uuid) returns (r: Option<P.Account>)
      ensures r == P.FindById(View(), id)
    {
      if id in users && !users[id].deleted {
        r := Some(P.Account(id, users[id]));
      } else {
        r := None;
      }
    }

    method FindByEmail(email: string) returns (r: Option<P.Account>)
      ensures r == P.FindByEmail(View(), email)
    {
      var holders := set id | id in users && !users[id].deleted && users[id].email == email;
      assert holders == P.Holders(View(), email);
      if holders == {} {
        r := None;
      } else {
        P.LeastExists(holders);
        var id :| id in holders && forall other | other in holders :: id <= other;
        r := Some(P.Account(id, users[id]));
      }
    }

    method FindByTokenHash(d: Digest) returns (r: Option<TokenRow>)
      ensures r == P.FindByTokenHash(View(), d)
    {
      r := if d in tokens then Some(tokens[d]) else None;
    }

    method CreateUser(id: Uuid, row: UserRow) returns (ok: bool)
      requires Valid()
      modifies this
      ensures Valid() && tokens == old(tokens)
      ensures ok == P.UserKeysFree(old(View()), id, row.email)
      ensures users == if ok then old(users)[id := row] else old(users)
    {
      ok := id !in users && forall other | other in users :: users[other].email != row.email;
      if ok {
        users := users[id := row];
      }
    }

    /** Fails exactly when the address the patch brings to a visible row is taken by another, deleted or not. */
    method UpdateUser(id: Uuid, patch: UserPatch) returns (ok: bool)
      requires Valid()
      modifies this
      ensures Valid() && View() == P.UpdateUser(old(View()), id, patch)
      ensures ok <==> P.Visible(old(View()), id) ==> P.PatchFits(old(View()), id, patch)
    {
      ok := true;
      if id in users && !users[id].deleted {
        if patch.email != "" && exists other | other in users && other != id :: users[other].email == patch.email {
          return false;
        }
        var row := users[id];
        if patch.email != "" { row := row.(email := patch.email); }
        if patch.password.Some? { row := row.(password := patch.password.value); }
        if patch.name != "" { row := row.(name := patch.name); }
        users := users[id := row];
      }
    }

    method DeleteUser(id: Uuid)
      requires Valid()
      modifies this
      ensures Valid() && View() == P.SoftDelete(old(View()), id)
    {
      if id in users && !users[id].deleted {
        users := users[id := users[id].(deleted := true)];
      }
    }

    method CreateToken(row: TokenRow) returns (ok: bool)
      requires Valid()
      modifies this
      ensures Valid() && users == old(users)
      ensures ok == P.TokenKeysFree(old(View()), row.id, row.digest)
      ensures tokens == if ok then old(tokens)[row.digest := row] else old(tokens)
    {
      ok := row.digest !in tokens && forall other | other in tokens :: tokens[other].id != row.id;
      if ok {
        tokens := tokens[row.digest := row];
      }
    }

    method DeleteByTokenHash(d: Digest)
      requires Valid()
      modifies this
      ensures Valid() && View() == P.DeleteByTokenHash(old(View()), d)
    {
      tokens := tokens - {d};
    }

    method DeleteByUserId(userId: Uuid)
      requires Valid()
      modifies this
      ensures Valid() && View() == P.DeleteByUserId(old(View()), userId)
    {
      tokens := map d | d in tokens && tokens[d].userId != userId :: tokens[d];
    }

    method DeleteExpired(before: Instant) returns (removed: nat)
      requires Valid()
      modifies this
      ensures Valid() && View() == P.DeleteExpired(old(View()), before)
      ensures removed == |P.ExpiredAt(old(View()), before)|
    {
      var expired := set d | d in tokens && tokens[d].expiresAt < before;
      assert expired == P.ExpiredAt(View(), before);
      tokens := tokens - expired;
      removed := |expired|;
    }

    /** Counts the matching rows one by one; no two of them are the same session. */
    method CountActive(userId: Uuid, now: Instant) returns (total: nat)
      requires Valid()
      ensures total == |ActiveRows(tokens, userId, now)|
    {
      total := 0;
      var todo := tokens.Keys;
      assert Counted(tokens, todo, userId, now) == {};
      while todo != {}
        invariant todo <= tokens.Keys && total == |Counted(tokens, todo, userId, now)|
        decreases |todo|
      {
        var d :| d in todo;
        CountOne(tokens, todo, d, userId, now);
        todo := todo - {d};
        if tokens[d].userId == userId && tokens[d].expiresAt > now {
          total := total + 1;
        }
      }
      assert Counted(tokens, {}, userId, now) == ActiveRows(tokens, userId, now);
    }

    method ListActive(userId: Uuid, now: Instant, limit: nat, offset: int) returns (rows: seq<TokenRow>)
      requires Valid()
      ensures rows == Listing.ListActive(tokens, userId, now, limit, offset)
    {
      var sorted := SortNewestFirst(ActiveRows(tokens, userId, now));
      rows := Window(sorted, limit, offset);
    }

    /** Ends a transaction that began on the given tables. */
    method EndTransaction(before: Store, commit: bool)
      requires Valid()
      requires P.WellKeyed(before)
      modifies this
      ensures Valid() && View() == if commit then old(View()) else before
    {
      if !commit {
        users, tokens := before.users, before.tokens;
      }
    }
  }
}
