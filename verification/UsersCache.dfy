/**
 The profile cache of tcbot/database/users_cache.py with Redis off: the member collection,
 the in-memory mention cache in front of it, the write that is skipped when the cached
 identity matches, and the batch readers.
 */
module UsersCache {
  import opened Wrappers
  import Formatter

  datatype Doc = Doc(firstName: Option<string>, username: Option<string>, lastName: Option<string>)

  /** A cached identity; entries of length 2 predate the tracking of last names. */
  type Entry = e: seq<Option<string>> | |e| >= 2 witness [None, None]

  const NOT_FOUND: Entry := [None, None, None]

  type Members = map<int, Doc>
  type Mentions = map<int, Entry>

  /** A missing and an empty stored name both show as the user id. */
  function Shown(uid: int, stored: Option<string>): string {
    if stored.Some? && stored.value != "" then stored.value else Formatter.Decimal(uid)
  }

  function Fetched(members: Members, uid: int): Entry {
    if uid in members then [Some(Shown(uid, members[uid].firstName)), members[uid].username, members[uid].lastName]
    else NOT_FOUND
  }

  function Mention(uid: int, entry: Entry): (string, Option<string>) {
    (if entry[0].Some? then entry[0].value else Formatter.Decimal(uid), entry[1])
  }

  /** What reading one user answers, and the cache once each of `uids` has been read. */
  function Answer(members: Members, mentions: Mentions, uid: int): (string, Option<string>) {
    Mention(uid, if uid in mentions then mentions[uid] else Fetched(members, uid))
  }

  function Warmed(members: Members, mentions: Mentions, uids: seq<int>): Mentions {
    mentions + map uid | uid in uids && uid !in mentions :: Fetched(members, uid)
  }

  /** Reading names only caches the users that were not found. */
  function WarmedAbsent(members: Members, mentions: Mentions, uids: seq<int>): Mentions {
    mentions + map uid | uid in uids && uid !in mentions && uid !in members :: NOT_FOUND
  }

  lemma {:induction false} IsWarmed(members: Members, before: Mentions, after: Mentions, uids: seq<int>)
    requires forall uid :: uid in after <==> uid in before || uid in uids
    requires forall uid :: uid in after ==> after[uid] == if uid in before then before[uid] else Fetched(members, uid)
    ensures after == Warmed(members, before, uids)
  {
    var warmed := Warmed(members, before, uids);
    assert forall uid :: uid in warmed <==> uid in after;
    assert forall uid :: uid in after ==> after[uid] == warmed[uid];
    assert after == warmed;
  }

  lemma {:induction false} IsWarmedAbsent(members: Members, before: Mentions, after: Mentions, uids: seq<int>)
    requires forall uid :: uid in after <==> uid in before || (uid in uids && uid !in members)
    requires forall uid :: uid in after ==> after[uid] == if uid in before then before[uid] else NOT_FOUND
    ensures after == WarmedAbsent(members, before, uids)
  {
    var warmed := WarmedAbsent(members, before, uids);
    assert forall uid :: uid in warmed <==> uid in after;
    assert forall uid :: uid in after ==> after[uid] == warmed[uid];
    assert after == warmed;
  }

  /** A username or last name of None keeps what is stored. */
  function Upserted(members: Members, uid: int, username: Option<string>, first: string,
      last: Option<string>): Members {
    var stored := if uid in members then members[uid] else Doc(None, None, None);
    members[uid := Doc(
      Some(first),
      if username.Some? then username else stored.username,
      if last.Some? then last else stored.lastName)]
  }

  function CachedTriple(entry: Entry): (Option<string>, Option<string>, Option<string>) {
    (entry[0], entry[1], if |entry| > 2 then entry[2] else None)
  }

  predicate Unchanged(mentions: Mentions, uid: int, username: Option<string>, first: string, last: Option<string>) {
    uid in mentions && CachedTriple(mentions[uid]) == (Some(first), username, last)
  }

  function OrEmpty(field: Option<string>): Option<string> {
    if field.Some? then field else Some("")
  }

  ghost predicate Distinct(ids: seq<int>) {
    forall i, j :: 0 <= i < j < |ids| ==> ids[i] != ids[j]
  }

  /** The distinct elements of `ids`. */
  method FromKeys(ids: seq<int>) returns (keys: seq<int>)
    ensures Distinct(keys)
    ensures forall uid :: uid in keys <==> uid in ids
  {
    keys := [];
    for i := 0 to |ids|
      invariant Distinct(keys)
      invariant forall uid :: uid in keys <==> uid in ids[..i]
    {
      if ids[i] !in keys {
        keys := keys + [ids[i]];
      }
    }
    assert ids[..|ids|] == ids;
  }

  class IdentityCache {
    var members: Members
    var mentions: Mentions

    constructor (members: Members, mentions: Mentions)
      ensures this.members == members && this.mentions == mentions
    {
      this.members, this.mentions := members, mentions;
    }

    method UpsertUser(uid: int, username: Option<string>, first: string, last: Option<string>)
      modifies this
      ensures members == Upserted(old(members), uid, username, first, last)
      ensures mentions == old(mentions) - {uid}
    {
      var doc := if uid in members then members[uid] else Doc(None, None, None);
      doc := doc.(firstName := Some(first));
      if username.Some? {
        doc := doc.(username := username);
      }
      if last.Some? {
        doc := doc.(lastName := last);
      }
      members := members[uid := doc];
      mentions := mentions - {uid};
    }

    method UpsertUserIfChanged(uid: int, username: Option<string>, first: string, last: Option<string>)
        returns (wrote: bool)
      modifies this
      ensures wrote == !Unchanged(old(mentions), uid, username, first, last)
      ensures !wrote <==>
              && uid in old(mentions)
              && old(mentions)[uid][0] == Some(first) && old(mentions)[uid][1] == username
              && last == if |old(mentions)[uid]| >= 3 then old(mentions)[uid][2] else None
      ensures wrote ==> members == Upserted(old(members), uid, username, first, last)
      ensures wrote ==> mentions == old(mentions) - {uid}
      ensures !wrote ==> members == old(members) && mentions == old(mentions)
    {
      if uid in mentions && CachedTriple(mentions[uid]) == (Some(first), username, last) {
        return false;
      }
      UpsertUser(uid, username, first, last);
      wrote := true;
    }

    /** A field the live profile lacks is cleared rather than kept. */
    method HarvestUserIdentity(uid: int, username: Option<string>, first: string, last: Option<string>)
        returns (wrote: bool)
      modifies this
      ensures wrote == !Unchanged(old(mentions), uid, OrEmpty(username), first, OrEmpty(last))
      ensures wrote ==> members == Upserted(old(members), uid, OrEmpty(username), first, OrEmpty(last))
      ensures wrote ==> members[uid] == Doc(
                Some(first),
                Some(if username.Some? then username.value else ""),
                Some(if last.Some? then last.value else ""))
      ensures wrote ==> mentions == old(mentions) - {uid}
      ensures !wrote ==> members == old(members) && mentions == old(mentions)
      ensures !wrote ==>
                && uid in mentions
                && CachedTriple(mentions[uid]) == (Some(first), OrEmpty(username), OrEmpty(last))
    {
      wrote := UpsertUserIfChanged(uid, OrEmpty(username), first, OrEmpty(last));
    }

    method GetUserMentionData(uid: int) returns (r: (string, Option<string>))
      modifies this`mentions
      ensures r == Answer(members, old(mentions), uid)
      ensures mentions == Warmed(members, old(mentions), [uid])
    {
      if uid !in mentions {
        mentions := mentions[uid := Fetched(members, uid)];
      }
      var data := mentions[uid];
      r := (if data[0].Some? then data[0].value else Formatter.Decimal(uid), data[1]);
    }

    /** The database's answer for the wanted users: each stored one once, in some order. */
    method Find(wanted: seq<int>) returns (rows: seq<int>)
      ensures Distinct(rows)
      ensures forall uid :: uid in rows <==> uid in wanted && uid in members
    {
      rows := [];
      for i := 0 to |wanted|
        invariant Distinct(rows)
        invariant forall uid :: uid in rows <==> uid in wanted[..i] && uid in members
      {
        if wanted[i] in members && wanted[i] !in rows {
          rows := rows + [wanted[i]];
        }
      }
      assert wanted[..|wanted|] == wanted;
    }

    /** The batch answers exactly the requested users, each as the single reader would. */
    method GetMentionDataBatch(userIds: seq<int>) returns (result: map<int, (string, Option<string>)>)
      modifies this`mentions
      ensures forall uid :: uid in result <==> uid in userIds
      ensures forall uid :: uid in result ==> result[uid] == Answer(members, old(mentions), uid)
      ensures mentions == Warmed(members, old(mentions), userIds)
    {
      ghost var before := mentions;
      if userIds == [] {
        IsWarmed(members, before, mentions, userIds);
        return map[];
      }
      var missing: seq<int>;
      result, missing := CheckCache(userIds);
      if missing == [] {
        assert forall uid :: uid in userIds ==> uid !in missing;
        IsWarmed(members, before, mentions, userIds);
        return;
      }
      var rows := Find(missing);
      result := CacheFound(rows, result);
      result := CacheAbsent(missing, result);
      IsWarmed(members, before, mentions, userIds);
    }

    /** The loop over the distinct requested users, split into cached answers and the rest. */
    method CheckCache(userIds: seq<int>) returns (result: map<int, (string, Option<string>)>, missing: seq<int>)
      ensures forall uid :: uid in result <==> uid in userIds && uid in mentions
      ensures forall uid :: uid in result ==> result[uid] == Mention(uid, mentions[uid])
      ensures forall uid :: uid in missing <==> uid in userIds && uid !in mentions
    {
      result, missing := map[], [];
      var keys := FromKeys(userIds);
      for i := 0 to |keys|
        invariant forall uid :: uid in missing <==> uid in keys[..i] && uid !in mentions
        invariant forall uid :: uid in result <==> uid in keys[..i] && uid in mentions
        invariant forall uid :: uid in result ==> result[uid] == Mention(uid, mentions[uid])
      {
        var uid := keys[i];
        if uid in mentions {
          var data := mentions[uid];
          result := result[uid := (if data[0].Some? then data[0].value else Formatter.Decimal(uid), data[1])];
        } else {
          missing := missing + [uid];
        }
      }
      assert keys[..|keys|] == keys;
    }

    /** The loop over the rows of a batch. */
    method CacheFound(rows: seq<int>, known: map<int, (string, Option<string>)>)
      returns (result: map<int, (string, Option<string>)>)
      requires forall uid :: uid in rows ==> uid in members && uid !in known && uid !in mentions
      modifies this`mentions
      ensures forall uid :: uid in result <==> uid in known || uid in rows
      ensures forall uid :: uid in result ==>
                result[uid] == if uid in known then known[uid] else Mention(uid, Fetched(members, uid))
      ensures forall uid :: uid in mentions <==> uid in old(mentions) || uid in rows
      ensures forall uid :: uid in mentions ==>
                mentions[uid] == if uid in old(mentions) then old(mentions)[uid] else Fetched(members, uid)
    {
      result := known;
      for i := 0 to |rows|
        invariant forall uid :: uid in result <==> uid in known || uid in rows[..i]
        invariant forall uid :: uid in result ==>
                    result[uid] == if uid in known then known[uid] else Mention(uid, Fetched(members, uid))
        invariant forall uid :: uid in mentions <==> uid in old(mentions) || uid in rows[..i]
        invariant forall uid :: uid in mentions ==>
                    mentions[uid] == if uid in old(mentions) then old(mentions)[uid] else Fetched(members, uid)
      {
        var uid := rows[i];
        var name := Shown(uid, members[uid].firstName);
        mentions := mentions[uid := [Some(name), members[uid].username, members[uid].lastName]];
        result := result[uid := (name, members[uid].username)];
      }
      assert rows[..|rows|] == rows;
    }

    /** The loop over the wanted users the database did not know either. */
    method CacheAbsent(missing: seq<int>, known: map<int, (string, Option<string>)>)
      returns (result: map<int, (string, Option<string>)>)
      requires forall uid :: uid in missing && uid !in known ==> uid !in mentions
      modifies this`mentions
      ensures forall uid :: uid in result <==> uid in known || uid in missing
      ensures forall uid :: uid in result ==>
                result[uid] == if uid in known then known[uid] else Mention(uid, NOT_FOUND)
      ensures forall uid :: uid in mentions <==> uid in old(mentions) || (uid in missing && uid !in known)
      ensures forall uid :: uid in mentions ==>
                mentions[uid] == if uid in old(mentions) then old(mentions)[uid] else NOT_FOUND
    {
      result := known;
      for i := 0 to |missing|
        invariant forall uid :: uid in result <==> uid in known || uid in missing[..i]
        invariant forall uid :: uid in result ==>
                    result[uid] == if uid in known then known[uid] else Mention(uid, NOT_FOUND)
        invariant forall uid :: uid in mentions <==> uid in old(mentions) || (uid in missing[..i] && uid !in known)
        invariant forall uid :: uid in mentions ==>
                    mentions[uid] == if uid in old(mentions) then old(mentions)[uid] else NOT_FOUND
      {
        var uid := missing[i];
        if uid !in result {
          mentions := mentions[uid := NOT_FOUND];
          result := result[uid := (Formatter.Decimal(uid), None)];
        }
      }
      assert missing[..|missing|] == missing;
    }

    /** The names alone, by one query; users it finds are not cached, as their last names are not known. */
    method GetFirstNamesBatch(userIds: seq<int>) returns (result: map<int, string>)
      modifies this`mentions
      ensures forall uid :: uid in result <==> uid in userIds
      ensures forall uid :: uid in result ==> result[uid] == Answer(members, old(mentions), uid).0
      ensures mentions == WarmedAbsent(members, old(mentions), userIds)
    {
      ghost var before := mentions;
      if userIds == [] {
        IsWarmedAbsent(members, before, mentions, userIds);
        return map[];
      }
      var missing: seq<int>;
      result, missing := CheckNames(userIds);
      if missing == [] {
        assert forall uid :: uid in userIds ==> uid !in missing;
        IsWarmedAbsent(members, before, mentions, userIds);
        return;
      }
      var rows := Find(missing);
      result := ReadFound(rows, result);
      result := NameAbsent(missing, result);
      IsWarmedAbsent(members, before, mentions, userIds);
    }

    method CheckNames(userIds: seq<int>) returns (result: map<int, string>, missing: seq<int>)
      ensures forall uid :: uid in result <==> uid in userIds && uid in mentions
      ensures forall uid :: uid in result ==> result[uid] == Mention(uid, mentions[uid]).0
      ensures forall uid :: uid in missing <==> uid in userIds && uid !in mentions
    {
      result, missing := map[], [];
      var keys := FromKeys(userIds);
      for i := 0 to |keys|
        invariant forall uid :: uid in missing <==> uid in keys[..i] && uid !in mentions
        invariant forall uid :: uid in result <==> uid in keys[..i] && uid in mentions
        invariant forall uid :: uid in result ==> result[uid] == Mention(uid, mentions[uid]).0
      {
        var uid := keys[i];
        if uid in mentions {
          var data := mentions[uid];
          result := result[uid := if data[0].Some? then data[0].value else Formatter.Decimal(uid)];
        } else {
          missing := missing + [uid];
        }
      }
      assert keys[..|keys|] == keys;
    }

    method ReadFound(rows: seq<int>, known: map<int, string>) returns (result: map<int, string>)
      requires forall uid :: uid in rows ==> uid in members && uid !in known
      ensures forall uid :: uid in result <==> uid in known || uid in rows
      ensures forall uid :: uid in result ==>
                result[uid] == if uid in known then known[uid] else Mention(uid, Fetched(members, uid)).0
    {
      result := known;
      for i := 0 to |rows|
        invariant forall uid :: uid in result <==> uid in known || uid in rows[..i]
        invariant forall uid :: uid in result ==>
                    result[uid] == if uid in known then known[uid] else Mention(uid, Fetched(members, uid)).0
      {
        result := result[rows[i] := Shown(rows[i], members[rows[i]].firstName)];
      }
      assert rows[..|rows|] == rows;
    }

    method NameAbsent(missing: seq<int>, known: map<int, string>) returns (result: map<int, string>)
      requires forall uid :: uid in missing && uid !in known ==> uid !in mentions
      modifies this`mentions
      ensures forall uid :: uid in result <==> uid in known || uid in missing
      ensures forall uid :: uid in result ==> result[uid] == if uid in known then known[uid] else Formatter.Decimal(uid)
      ensures forall uid :: uid in mentions <==> uid in old(mentions) || (uid in missing && uid !in known)
      ensures forall uid :: uid in mentions ==>
                mentions[uid] == if uid in old(mentions) then old(mentions)[uid] else NOT_FOUND
    {
      result := known;
      for i := 0 to |missing|
        invariant forall uid :: uid in result <==> uid in known || uid in missing[..i]
        invariant forall uid :: uid in result ==>
                    result[uid] == if uid in known then known[uid] else Formatter.Decimal(uid)
        invariant forall uid :: uid in mentions <==> uid in old(mentions) || (uid in missing[..i] && uid !in known)
        invariant forall uid :: uid in mentions ==>
                    mentions[uid] == if uid in old(mentions) then old(mentions)[uid] else NOT_FOUND
      {
        var uid := missing[i];
        if uid !in result {
          mentions := mentions[uid := NOT_FOUND];
          result := result[uid := Formatter.Decimal(uid)];
        }
      }
      assert missing[..|missing|] == missing;
    }

    method RememberIdentity(uid: int, first: Option<string>, username: Option<string>, last: Option<string>)
      modifies this`mentions
      ensures mentions == old(mentions)[uid := if first.None? then NOT_FOUND else [first, username, last]]
    {
      if first.None? {
        mentions := mentions[uid := NOT_FOUND];
      } else {
        mentions := mentions[uid := [first, username, last]];
      }
    }
  }

  // ---------------------------------------------------------------------------
  // Skipping a write changes nothing
  // ---------------------------------------------------------------------------

  datatype World = World(members: Members, mentions: Mentions)

  datatype Identity = Identity(first: string, username: Option<string>, last: Option<string>)

  /**
   `Sync` is the part of extraction.py's resolver that ran past its freshness check: with a
   live profile it writes and remembers it, without one it remembers a user that has no name.
   `Drop` is an entry expiring or being evicted.
   */
  datatype Step =
    | Upsert(uid: int, username: Option<string>, first: string, last: Option<string>)
    | UpsertIfChanged(uid: int, username: Option<string>, first: string, last: Option<string>)
    | Sync(uid: int, live: Option<Identity>)
    | ReadMentions(uids: seq<int>)
    | ReadNames(uids: seq<int>)
    | Drop(uid: int)

  function Write(w: World, uid: int, username: Option<string>, first: string, last: Option<string>): World {
    World(Upserted(w.members, uid, username, first, last), w.mentions - {uid})
  }

  /** `eliding` is the code; without it every conditional write is carried out. */
  function Next(w: World, s: Step, eliding: bool): World {
    match s
    case Upsert(uid, username, first, last) => Write(w, uid, username, first, last)
    case UpsertIfChanged(uid, username, first, last) =>
      if eliding && Unchanged(w.mentions, uid, username, first, last) then w else Write(w, uid, username, first, last)
    case Sync(uid, Some(live)) =>
      var written := Write(w, uid, OrEmpty(live.username), live.first, OrEmpty(live.last));
      written.(mentions := written.mentions[uid := [Some(live.first), live.username, live.last]])
    case Sync(uid, None) =>
      if uid in w.members && w.members[uid].firstName !in {None, Some("")} then w
      else w.(mentions := w.mentions[uid := NOT_FOUND])
    case ReadMentions(uids) => w.(mentions := Warmed(w.members, w.mentions, uids))
    case ReadNames(uids) => w.(mentions := WarmedAbsent(w.members, w.mentions, uids))
    case Drop(uid) => w.(mentions := w.mentions - {uid})
  }

  function Run(w: World, steps: seq<Step>, eliding: bool): World
    decreases |steps|
  {
    if steps == [] then w else Run(Next(w, steps[0], eliding), steps[1..], eliding)
  }

  predicate Named(doc: Doc) {
    doc.firstName.Some? && doc.firstName.value != ""
  }

  predicate NamesGiven(s: Step) {
    && ((s.Upsert? || s.UpsertIfChanged?) ==> s.first != "")
    && (s.Sync? && s.live.Some? ==> s.live.value.first != "")
  }

  /** An entry never contradicts the stored profile; a None in it says nothing. */
  ghost predicate Agrees(members: Members, uid: int, entry: Entry) {
    if uid in members then
      && (if entry[0].Some? then entry[0].value == Shown(uid, members[uid].firstName) else !Named(members[uid]))
      && (entry[1].Some? ==> entry[1] == members[uid].username)
      && (CachedTriple(entry).2.Some? ==> CachedTriple(entry).2 == members[uid].lastName)
    else entry[0].None? && entry[1].None?
  }

  ghost predicate Coherent(w: World) {
    forall uid :: uid in w.mentions ==> Agrees(w.members, uid, w.mentions[uid])
  }

  ghost predicate AllNamed(w: World) {
    forall uid :: uid in w.members ==> Named(w.members[uid])
  }

  lemma {:induction false} StepKeepsCoherence(w: World, s: Step, eliding: bool)
    requires Coherent(w) && NamesGiven(s)
    ensures Coherent(Next(w, s, eliding))
  {
    match s {
      case Upsert(uid, username, first, last) =>
      case UpsertIfChanged(uid, username, first, last) =>
      case Sync(uid, Some(live)) =>
      case Sync(uid, None) =>
      case ReadMentions(uids) =>
      case ReadNames(uids) =>
      case Drop(uid) =>
    }
  }

  /**
   A skipped write would have changed nothing if and only if the stored first name is not
   empty: an empty one is cached as the user id, which a later write of that id matches.
   */
  lemma {:induction false} SkipIsHarmlessIffNamed(w: World, uid: int, username: Option<string>, first: string,
      last: Option<string>)
    requires Coherent(w) && Unchanged(w.mentions, uid, username, first, last)
    ensures uid in w.members
    ensures Upserted(w.members, uid, username, first, last) == w.members <==> Named(w.members[uid])
  {
    assert Agrees(w.members, uid, w.mentions[uid]);
    assert Upserted(w.members, uid, username, first, last)[uid].firstName == Some(first);
  }

  /** Whatever the cache holds, a reader shows the stored name, or the id where there is none. */
  lemma {:induction false} ReadersShowStoredName(w: World, uid: int)
    requires Coherent(w)
    ensures Answer(w.members, w.mentions, uid).0
              == Shown(uid, if uid in w.members then w.members[uid].firstName else None)
  {
  }

  /** A username is shown only if it is the stored one, and a user who is not cached shows it. */
  lemma {:induction false} ReadersShowStoredUsername(w: World, uid: int)
    requires Coherent(w)
    ensures var shown, stored := Answer(w.members, w.mentions, uid).1,
                                 if uid in w.members then w.members[uid].username else None;
      && (shown.Some? ==> shown == stored)
      && (uid !in w.mentions ==> shown == stored)
  {
  }

  /** After a sync readers show the live profile, and an unnamed user without one by the id alone. */
  lemma {:induction false} SyncIsRemembered(w: World, uid: int, live: Option<Identity>, eliding: bool)
    ensures var w' := Next(w, Sync(uid, live), eliding);
      match live
      case Some(identity) =>
        && Answer(w'.members, w'.mentions, uid) == (identity.first, identity.username)
        && uid in w'.members && w'.members[uid].firstName == Some(identity.first)
        && w'.members[uid].username == Some(if identity.username.Some? then identity.username.value else "")
        && w'.members[uid].lastName == Some(if identity.last.Some? then identity.last.value else "")
      case None =>
        && w'.members == w.members
        && if uid in w.members && Named(w.members[uid]) then w' == w
           else Answer(w'.members, w'.mentions, uid) == (Formatter.Decimal(uid), None)
  {
  }

  /** Reading names caches the absent users among those asked for, and dropping an entry only that entry. */
  lemma {:induction false} CacheAfterReads(w: World, uids: seq<int>, uid: int, eliding: bool)
    ensures var w' := Next(w, ReadNames(uids), eliding);
      && w'.members == w.members
      && (uid in w'.mentions <==> uid in w.mentions || (uid in uids && uid !in w.members))
      && (uid in w'.mentions ==> w'.mentions[uid] == if uid in w.mentions then w.mentions[uid] else [None, None, None])
    ensures var w' := Next(w, ReadMentions(uids), eliding);
      && w'.members == w.members
      && (uid in w'.mentions <==> uid in w.mentions || uid in uids)
    ensures Next(w, Drop(uid), eliding) == World(w.members, w.mentions - {uid})
  {
  }

  lemma {:induction false} LockStep(w: World, v: World, steps: seq<Step>)
    requires w.members == v.members && Coherent(w) && Coherent(v) && AllNamed(w)
    requires forall i :: 0 <= i < |steps| ==> NamesGiven(steps[i])
    ensures Run(w, steps, true).members == Run(v, steps, false).members
    ensures Coherent(Run(w, steps, true)) && Coherent(Run(v, steps, false))
    decreases |steps|
  {
    if steps != [] {
      var s := steps[0];
      var w', v' := Next(w, s, true), Next(v, s, false);
      StepKeepsCoherence(w, s, true);
      StepKeepsCoherence(v, s, false);
      if s.UpsertIfChanged? && Unchanged(w.mentions, s.uid, s.username, s.first, s.last) {
        SkipIsHarmlessIffNamed(w, s.uid, s.username, s.first, s.last);
      }
      assert w'.members == v'.members && AllNamed(w');
      LockStep(w', v', steps[1..]);
    }
  }

  /**
   Over every serial run of writes and reads with non-empty first names, skipping matched
   writes leaves the profiles, and the name shown for every user, as always writing would.
   */
  lemma {:induction false} SkippingRefinesWriting(w: World, steps: seq<Step>, uid: int)
    requires Coherent(w) && AllNamed(w)
    requires forall i :: 0 <= i < |steps| ==> NamesGiven(steps[i])
    ensures Run(w, steps, true).members == Run(w, steps, false).members
    ensures var w', v' := Run(w, steps, true), Run(w, steps, false);
      Answer(w'.members, w'.mentions, uid).0 == Answer(v'.members, v'.mentions, uid).0
  {
    LockStep(w, w, steps);
    ReadersShowStoredName(Run(w, steps, true), uid);
    ReadersShowStoredName(Run(w, steps, false), uid);
  }

  /** The family the condition shuts out: an empty name is stored, read, and then set to the id. */
  lemma {:induction false} EmptyNameExample()
    ensures var steps := [Upsert(7, None, "", None), ReadMentions([7]), UpsertIfChanged(7, None, "7", None)];
      var empty := World(map[], map[]);
      && Run(empty, steps, true).members == map[7 := Doc(Some(""), None, None)]
      && Run(empty, steps, false).members == map[7 := Doc(Some("7"), None, None)]
  {
    var empty := World(map[], map[]);
    var s0, s1, s2 := Upsert(7, None, "", None), ReadMentions([7]), UpsertIfChanged(7, None, "7", None);
    var steps := [s0, s1, s2];
    assert steps[1..] == [s1, s2] && steps[1..][1..] == [s2] && steps[1..][1..][1..] == [];
    assert Formatter.Decimal(7) == "7";
    var stored := map[7 := Doc(Some(""), None, None)];
    assert Next(empty, s0, true) == World(stored, map[]) == Next(empty, s0, false);
    var warm := World(stored, map[7 := [Some("7"), None, None]]);
    assert Next(World(stored, map[]), s1, true) == warm == Next(World(stored, map[]), s1, false);
    assert Unchanged(warm.mentions, 7, None, "7", None);
    assert Next(warm, s2, false).members == map[7 := Doc(Some("7"), None, None)];
  }
}
