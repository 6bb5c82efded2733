/**
 * The in-memory link repository (repo.inMemoryRepo). Links live in a list of
 * items; an item's position is its link id. Every item keeps the original URL
 * and the users who saved it. A URL is stored once: saving it again returns
 * the existing id together with ErrLinkAlreadyExists and only records the
 * caller as one more owner. Users are numbered 0, 1, 2, ... by a counter.
 * Nothing is ever removed.
 *
 * The operations are first given as functions on a `State` value (what the
 * repository holds); class `Repo` below performs them in place and is proved
 * to agree with those functions.
 */
module InMemoryRepo {
  import opened Model

  /** item: an original URL and, in saving order, the users who saved it. */
  datatype Item = Item(originalURL: string, users: seq<UserId>)

  /** The whole content of a repository, which is also what a snapshot holds. */
  datatype State = State(items: seq<Item>, nextUserID: UserId)

  /** NewInMemoryRepo: no items, and the first user will get id 0. */
  const Empty: State := State([], 0)

  /** IsValidUserID: the id was handed out by AddUser. */
  predicate IsValidUser(s: State, id: UserId) {
    IsValid(id) && id < s.nextUserID
  }

  predicate NoDuplicates(xs: seq<UserId>) {
    forall i, j :: 0 <= i < j < |xs| ==> xs[i] != xs[j]
  }

  predicate DistinctURLs(items: seq<Item>) {
    forall i, j :: 0 <= i < j < |items| ==> items[i].originalURL != items[j].originalURL
  }

  /**
   * What every operation keeps: each URL is stored once, each item has at
   * least one owner and lists it once, and every owner is a registered user.
   */
  ghost predicate Inv(s: State) {
    && s.nextUserID >= 0
    && DistinctURLs(s.items)
    && (forall i :: 0 <= i < |s.items| ==> |s.items[i].users| > 0 && NoDuplicates(s.items[i].users))
    && (forall i, k :: 0 <= i < |s.items| && 0 <= k < |s.items[i].users| ==> IsValidUser(s, s.items[i].users[k]))
  }

  /**
   * `t` is `s` with things added and nothing taken away: every item keeps its
   * position, its URL and its owners, and no user id is withdrawn.
   */
  ghost predicate Extends(s: State, t: State) {
    && |s.items| <= |t.items|
    && s.nextUserID <= t.nextUserID
    && forall i :: 0 <= i < |s.items| ==>
         && t.items[i].originalURL == s.items[i].originalURL
         && forall u :: u in s.items[i].users ==> u in t.items[i].users
  }

  /** slices.IndexFunc looking for `url`: the first index that holds it, or -1. */
  function IndexOf(items: seq<Item>, url: string): (idx: int)
    ensures -1 <= idx < |items|
    ensures idx == -1 <==> forall j :: 0 <= j < |items| ==> items[j].originalURL != url
    ensures idx >= 0 ==> items[idx].originalURL == url
    ensures idx >= 0 ==> forall j :: 0 <= j < idx ==> items[j].originalURL != url
  {
    if items == [] then -1
    else if items[0].originalURL == url then 0
    else
      var rest := IndexOf(items[1..], url);
      if rest == -1 then -1 else rest + 1
  }

  /** AddUser: the id handed out, and the state after it. */
  function NewUser(s: State): (r: (State, UserId))
  {
    (s.(nextUserID := s.nextUserID + 1), s.nextUserID)
  }

  /** The outcome of saveOriginalURL: the new state, the link id and the error. */
  datatype Saved = Saved(state: State, id: LinkId, err: Option<Error>)

  /**
   * saveOriginalURL: an unregistered user gets (0, ErrUserNotFound); a new URL
   * is appended; a known URL yields its index and ErrLinkAlreadyExists. In
   * both of the last cases the user becomes an owner of the item unless it
   * already is one.
   */
  function Save(s: State, user: UserId, url: string): (r: Saved)
    ensures r.state.nextUserID == s.nextUserID
    ensures r.err == None || r.err == Some(ErrUserNotFound) || r.err == Some(ErrLinkAlreadyExists)
    ensures r.err == Some(ErrUserNotFound) <==> !IsValidUser(s, user)
  {
    if !IsValidUser(s, user) then Saved(s, 0, Some(ErrUserNotFound))
    else
      var found := IndexOf(s.items, url);
      var items := if found == -1 then s.items + [Item(url, [])] else s.items;
      var idx := if found == -1 then |s.items| else found;
      var it := items[idx];
      var owned := if user in it.users then it else it.(users := it.users + [user]);
      Saved(State(items[idx := owned], s.nextUserID), ToLinkId(idx),
            if found == -1 then None else Some(ErrLinkAlreadyExists))
  }

  /** The outcome of SaveOriginalURLs: the new state, the ids and the error. */
  datatype Batch = Batch(state: State, ids: seq<LinkId>, err: Option<Error>)

  /**
   * SaveOriginalURLs, one URL after the other: ErrLinkAlreadyExists is
   * swallowed, any other error ends the batch with no ids.
   */
  function SaveAll(s: State, user: UserId, urls: seq<string>): (r: Batch)
    ensures r.err.Some? ==> r.ids == [] && r.err == Some(ErrUserNotFound)
    ensures r.err.None? ==> |r.ids| == |urls|
    decreases |urls|
  {
    if urls == [] then Batch(s, [], None)
    else
      var prev := SaveAll(s, user, urls[..|urls| - 1]);
      if prev.err.Some? then prev
      else
        var r := Save(prev.state, user, urls[|urls| - 1]);
        if r.err.Some? && r.err != Some(ErrLinkAlreadyExists) then Batch(r.state, [], r.err)
        else Batch(r.state, prev.ids + [r.id], None)
  }

  /** GetOriginalURLByID. */
  function URLOf(s: State, id: LinkId): (r: Result<string>)
  {
    if id >= |s.items| then Err(ErrLinkNotFound) else Ok(s.items[id].originalURL)
  }

  /** The links of `user` among `items`, as GetOriginalURLsByUserID collects them. */
  function Owned(items: seq<Item>, user: UserId): (m: map<string, LinkId>)
    decreases |items|
  {
    if items == [] then map[]
    else
      var m := Owned(items[..|items| - 1], user);
      var last := items[|items| - 1];
      if user in last.users then m[last.originalURL := ToLinkId(|items| - 1)] else m
  }

  /** GetOriginalURLsByUserID. */
  function OwnedLinks(s: State, user: UserId): (r: Result<map<string, LinkId>>)
  {
    if !IsValidUser(s, user) then Err(ErrUserNotFound) else Ok(Owned(s.items, user))
  }

  // ---------------------------------------------------------------------
  // Properties of the operations
  // ---------------------------------------------------------------------

  /** A new repository satisfies the invariant and knows no user. */
  lemma EmptyInv(id: UserId)
    ensures Inv(Empty) && !IsValidUser(Empty, id)
    ensures OwnedLinks(Empty, id) == Err(ErrUserNotFound)
    ensures URLOf(Empty, 0) == Err(ErrLinkNotFound)
  {
  }

  /**
   * AddUser hands out the counter, moves it on by one, keeps the items and
   * the invariant; the new id is registered, as is every id registered before.
   */
  lemma {:induction false} AddUserFacts(s: State)
    requires Inv(s)
    ensures var (t, id) := NewUser(s);
      && id == s.nextUserID && t.nextUserID == id + 1 && t.items == s.items
      && Inv(t) && Extends(s, t) && IsValidUser(t, id)
      && forall u :: IsValidUser(s, u) ==> IsValidUser(t, u)
  {
    var (t, id) := NewUser(s);
    forall i, k | 0 <= i < |t.items| && 0 <= k < |t.items[i].users|
      ensures IsValidUser(t, t.items[i].users[k])
    {
      assert IsValidUser(s, s.items[i].users[k]);
    }
  }

  /** With a user that is not registered, saving reports ErrUserNotFound and changes nothing. */
  lemma SaveInvalidUser(s: State, user: UserId, url: string)
    requires !IsValidUser(s, user)
    ensures Save(s, user, url) == Saved(s, 0, Some(ErrUserNotFound))
  {
  }

  /** Saving a URL not yet stored appends one item owned by the user alone, with the next id. */
  lemma {:induction false} SaveNew(s: State, user: UserId, url: string)
    requires IsValidUser(s, user)
    requires forall j :: 0 <= j < |s.items| ==> s.items[j].originalURL != url
    ensures var r := Save(s, user, url);
      r.state.items == s.items + [Item(url, [user])] && r.id == ToLinkId(|s.items|) && r.err == None
  {
    assert IndexOf(s.items, url) == -1;
    assert Item(url, []).(users := [] + [user]) == Item(url, [user]);
    assert (s.items + [Item(url, [])])[|s.items| := Item(url, [user])] == s.items + [Item(url, [user])];
  }

  /**
   * Saving a URL stored at `i` answers `i` with ErrLinkAlreadyExists, keeps
   * the number of items, adds the user to that item's owners only if absent,
   * and leaves every other item as it was.
   */
  lemma {:induction false} SaveExisting(s: State, user: UserId, url: string, i: nat)
    requires Inv(s) && IsValidUser(s, user)
    requires i < |s.items| && s.items[i].originalURL == url
    ensures var r := Save(s, user, url);
      && r.id == ToLinkId(i) && r.err == Some(ErrLinkAlreadyExists)
      && |r.state.items| == |s.items|
      && r.state.items[i].originalURL == url
      && r.state.items[i].users ==
           (if user in s.items[i].users then s.items[i].users else s.items[i].users + [user])
      && forall j :: 0 <= j < |s.items| && j != i ==> r.state.items[j] == s.items[j]
  {
    var found := IndexOf(s.items, url);
    assert found != -1;
    assert found == i;
  }

  /**
   * Saving keeps the invariant and adds without taking away; when it does
   * not fail, the returned id (below 2^32 items) names an item holding the
   * URL and owned by the user.
   */
  lemma {:induction false} SaveFacts(s: State, user: UserId, url: string)
    requires Inv(s)
    ensures var r := Save(s, user, url);
      && Inv(r.state) && Extends(s, r.state)
      && |r.state.items| <= |s.items| + 1
      && (IsValidUser(s, user) && |r.state.items| <= TwoTo32 ==>
            && r.id < |r.state.items|
            && r.state.items[r.id].originalURL == url
            && user in r.state.items[r.id].users)
  {
    var r := Save(s, user, url);
    if IsValidUser(s, user) {
      var found := IndexOf(s.items, url);
      if found == -1 {
        SaveNew(s, user, url);
        var t := r.state;
        assert t.items == s.items + [Item(url, [user])];
        forall i, j | 0 <= i < j < |t.items|
          ensures t.items[i].originalURL != t.items[j].originalURL
        {
          if j == |s.items| {
            assert t.items[i] == s.items[i];
          }
        }
        forall i, k | 0 <= i < |t.items| && 0 <= k < |t.items[i].users|
          ensures IsValidUser(t, t.items[i].users[k])
        {
          if i < |s.items| {
            assert t.items[i] == s.items[i];
          }
        }
      } else {
        SaveExisting(s, user, url, found);
        var t := r.state;
        forall i, j | 0 <= i < j < |t.items|
          ensures t.items[i].originalURL != t.items[j].originalURL
        {
          assert s.items[i].originalURL != s.items[j].originalURL;
        }
        forall i | 0 <= i < |t.items|
          ensures |t.items[i].users| > 0 && NoDuplicates(t.items[i].users)
        {
          if i == found && user !in s.items[i].users {
            var us := s.items[i].users;
            assert t.items[i].users == us + [user];
            forall a, b | 0 <= a < b < |us| + 1 ensures (us + [user])[a] != (us + [user])[b] {
              if b == |us| {
                assert (us + [user])[a] == us[a];
              }
            }
          }
        }
        forall i, k | 0 <= i < |t.items| && 0 <= k < |t.items[i].users|
          ensures IsValidUser(t, t.items[i].users[k])
        {
          if i == found && user !in s.items[i].users && k == |s.items[i].users| {
          } else {
            assert t.items[i].users[k] == s.items[i].users[k];
          }
        }
      }
    }
  }

  /** Saving the same URL twice: the second call answers the same id with ErrLinkAlreadyExists and changes nothing. */
  lemma {:induction false} SaveTwice(s: State, user: UserId, url: string)
    requires Inv(s) && IsValidUser(s, user) && |s.items| < TwoTo32
    ensures var r1 := Save(s, user, url);
      var r2 := Save(r1.state, user, url);
      r2 == Saved(r1.state, r1.id, Some(ErrLinkAlreadyExists))
  {
    var r1 := Save(s, user, url);
    SaveFacts(s, user, url);
    SaveExisting(r1.state, user, url, r1.id);
    var r2 := Save(r1.state, user, url);
    assert r2.state.items == r1.state.items;
  }

  /** Within the invariant, different URLs are answered with different ids (below 2^32 items). */
  lemma {:induction false} SaveDistinctIds(s: State, user: UserId, url1: string, url2: string)
    requires Inv(s) && IsValidUser(s, user) && |s.items| + 2 <= TwoTo32 && url1 != url2
    ensures var r1 := Save(s, user, url1);
      Save(r1.state, user, url2).id != r1.id
  {
    var r1 := Save(s, user, url1);
    SaveFacts(s, user, url1);
    SaveFacts(r1.state, user, url2);
    var r2 := Save(r1.state, user, url2);
    assert r2.state.items[r1.id].originalURL == url1;
  }

  /** Once a batch has failed, the URLs after the failure are not looked at. */
  lemma {:induction false} SaveAllSticky(s: State, user: UserId, urls: seq<string>, n: nat)
    requires n <= |urls| && SaveAll(s, user, urls[..n]).err.Some?
    ensures SaveAll(s, user, urls) == SaveAll(s, user, urls[..n])
    decreases |urls| - n
  {
    if n < |urls| {
      assert urls[..n + 1][..n] == urls[..n];
      SaveAllSticky(s, user, urls, n + 1);
    } else {
      assert urls[..n] == urls;
    }
  }

  /** One more URL in a batch that has not failed so far. */
  lemma {:induction false} SaveAllStep(s: State, user: UserId, urls: seq<string>, i: nat)
    requires i < |urls| && SaveAll(s, user, urls[..i]).err == None
    ensures var prev := SaveAll(s, user, urls[..i]);
      var r := Save(prev.state, user, urls[i]);
      SaveAll(s, user, urls[..i + 1]) ==
        if r.err.Some? && r.err != Some(ErrLinkAlreadyExists) then Batch(r.state, [], r.err)
        else Batch(r.state, prev.ids + [r.id], None)
  {
    assert urls[..i + 1][..i] == urls[..i];
  }

  /** A batch from a user that is not registered fails at once, unless it is empty. */
  lemma {:induction false} SaveAllInvalidUser(s: State, user: UserId, urls: seq<string>)
    requires !IsValidUser(s, user)
    ensures urls == [] ==> SaveAll(s, user, urls) == Batch(s, [], None)
    ensures urls != [] ==> SaveAll(s, user, urls) == Batch(s, [], Some(ErrUserNotFound))
  {
    if urls != [] {
      assert SaveAll(s, user, urls[..1]) == Batch(s, [], Some(ErrUserNotFound)) by {
        assert urls[..1][..0] == [];
      }
      SaveAllSticky(s, user, urls, 1);
    }
  }

  lemma ExtendsTransitive(a: State, b: State, c: State)
    requires Extends(a, b) && Extends(b, c)
    ensures Extends(a, c)
  {
  }

  /** Any batch keeps the invariant and adds without taking away. */
  lemma {:induction false} SaveAllValid(s: State, user: UserId, urls: seq<string>)
    ensures Inv(s) ==> Inv(SaveAll(s, user, urls).state) && Extends(s, SaveAll(s, user, urls).state)
  {
    if Inv(s) {
      if IsValidUser(s, user) {
        SaveAllKeeps(s, user, urls);
      } else {
        SaveAllInvalidUser(s, user, urls);
      }
    }
  }

  /** Every id names an item that holds the URL at the same position and is owned by `user`. */
  ghost predicate IdsName(st: State, ids: seq<LinkId>, urls: seq<string>, user: UserId)
    requires |ids| == |urls|
  {
    forall i :: 0 <= i < |urls| ==>
      && ids[i] < |st.items|
      && st.items[ids[i]].originalURL == urls[i]
      && user in st.items[ids[i]].users
  }

  /** A batch from a registered user succeeds, keeps the invariant and adds without taking away. */
  lemma {:induction false} SaveAllKeeps(s: State, user: UserId, urls: seq<string>)
    requires Inv(s) && IsValidUser(s, user)
    ensures var r := SaveAll(s, user, urls);
      && r.err == None
      && Inv(r.state) && Extends(s, r.state)
      && r.state.nextUserID == s.nextUserID
      && |r.state.items| <= |s.items| + |urls|
    decreases |urls|
  {
    if urls != [] {
      var init := urls[..|urls| - 1];
      var url := urls[|urls| - 1];
      SaveAllKeeps(s, user, init);
      var prev := SaveAll(s, user, init);
      SaveFacts(prev.state, user, url);
      var sv := Save(prev.state, user, url);
      assert SaveAll(s, user, urls) == Batch(sv.state, prev.ids + [sv.id], None);
      ExtendsTransitive(s, prev.state, sv.state);
    }
  }

  /** The ids of a batch from a registered user name the items of its URLs, in order (below 2^32 items). */
  lemma {:induction false} SaveAllIds(s: State, user: UserId, urls: seq<string>)
    requires Inv(s) && IsValidUser(s, user) && |s.items| + |urls| <= TwoTo32
    ensures var r := SaveAll(s, user, urls);
      |r.ids| == |urls| && IdsName(r.state, r.ids, urls, user)
    decreases |urls|
  {
    SaveAllKeeps(s, user, urls);
    if urls != [] {
      var init := urls[..|urls| - 1];
      var url := urls[|urls| - 1];
      SaveAllKeeps(s, user, init);
      SaveAllIds(s, user, init);
      var prev := SaveAll(s, user, init);
      SaveFacts(prev.state, user, url);
      var sv := Save(prev.state, user, url);
      var r := SaveAll(s, user, urls);
      assert r == Batch(sv.state, prev.ids + [sv.id], None);
      forall i | 0 <= i < |urls|
        ensures && r.ids[i] < |r.state.items|
                && r.state.items[r.ids[i]].originalURL == urls[i]
                && user in r.state.items[r.ids[i]].users
      {
        if i < |urls| - 1 {
          assert r.ids[i] == prev.ids[i];
          assert init[i] == urls[i];
          assert prev.state.items[prev.ids[i]].originalURL == init[i];
        }
      }
    }
  }

  /**
   * A batch from a registered user succeeds, keeps the invariant, and gives
   * one id per URL, in order: id i names an item holding URL i and owned by
   * the user (as long as fewer than 2^32 items come to exist).
   */
  lemma {:induction false} SaveAllValidUser(s: State, user: UserId, urls: seq<string>)
    requires Inv(s) && IsValidUser(s, user)
    ensures var r := SaveAll(s, user, urls);
      && r.err == None && |r.ids| == |urls|
      && Inv(r.state) && Extends(s, r.state)
      && r.state.nextUserID == s.nextUserID
      && |r.state.items| <= |s.items| + |urls|
      && (|s.items| + |urls| <= TwoTo32 ==> IdsName(r.state, r.ids, urls, user))
  {
    SaveAllKeeps(s, user, urls);
    if |s.items| + |urls| <= TwoTo32 {
      SaveAllIds(s, user, urls);
    }
  }

  /** The map of a user's links has a key for exactly the URLs of the items the user owns. */
  lemma {:induction false} OwnedKeys(items: seq<Item>, user: UserId, url: string)
    ensures url in Owned(items, user) <==>
      exists i :: 0 <= i < |items| && items[i].originalURL == url && user in items[i].users
    decreases |items|
  {
    if items != [] {
      var init := items[..|items| - 1];
      OwnedKeys(init, user, url);
      if url in Owned(init, user) {
        var i :| 0 <= i < |init| && init[i].originalURL == url && user in init[i].users;
        assert items[i] == init[i];
      }
      if exists i :: 0 <= i < |items| && items[i].originalURL == url && user in items[i].users {
        var i :| 0 <= i < |items| && items[i].originalURL == url && user in items[i].users;
        if i < |init| {
          assert init[i] == items[i];
        }
      }
    }
  }

  /**
   * An item the user owns appears in the user's map under its own index
   * (URLs stored once, at most 2^32 items).
   */
  lemma {:induction false} OwnedValue(items: seq<Item>, user: UserId, i: nat)
    requires DistinctURLs(items) && |items| <= TwoTo32
    requires i < |items| && user in items[i].users
    ensures items[i].originalURL in Owned(items, user)
    ensures Owned(items, user)[items[i].originalURL] == i
    decreases |items|
  {
    var n := |items| - 1;
    if i < n {
      var init := items[..n];
      assert init[i] == items[i];
      assert DistinctURLs(init) by {
        forall a, b | 0 <= a < b < |init| ensures init[a].originalURL != init[b].originalURL {
          assert init[a] == items[a] && init[b] == items[b];
        }
      }
      OwnedValue(init, user, i);
      assert items[i].originalURL != items[n].originalURL;
    }
  }

  /**
   * A successful save can be read back: the id leads to the URL, and the URL
   * is among the user's links under that id (below 2^32 items).
   */
  lemma {:induction false} SaveThenRead(s: State, user: UserId, url: string)
    requires Inv(s) && IsValidUser(s, user) && |s.items| < TwoTo32
    ensures var r := Save(s, user, url);
      && URLOf(r.state, r.id) == Ok(url)
      && OwnedLinks(r.state, user).Ok?
      && url in OwnedLinks(r.state, user).value
      && OwnedLinks(r.state, user).value[url] == r.id
  {
    var r := Save(s, user, url);
    SaveFacts(s, user, url);
    OwnedValue(r.state.items, user, r.id);
  }

  /**
   * Two users saving the same URL share one id: the second save reports
   * ErrLinkAlreadyExists, and afterwards the URL is among both users' links
   * under that id (below 2^32 items).
   */
  lemma {:induction false} SharedURL(s: State, user1: UserId, user2: UserId, url: string)
    requires Inv(s) && IsValidUser(s, user1) && IsValidUser(s, user2) && |s.items| < TwoTo32
    ensures var r1 := Save(s, user1, url);
      var r2 := Save(r1.state, user2, url);
      && r2.id == r1.id && r2.err == Some(ErrLinkAlreadyExists)
      && OwnedLinks(r2.state, user1).Ok? && OwnedLinks(r2.state, user2).Ok?
      && url in OwnedLinks(r2.state, user1).value && OwnedLinks(r2.state, user1).value[url] == r1.id
      && url in OwnedLinks(r2.state, user2).value && OwnedLinks(r2.state, user2).value[url] == r1.id
  {
    var r1 := Save(s, user1, url);
    SaveFacts(s, user1, url);
    SaveExisting(r1.state, user2, url, r1.id);
    SaveFacts(r1.state, user2, url);
    var r2 := Save(r1.state, user2, url);
    OwnedValue(r2.state.items, user1, r1.id);
    OwnedValue(r2.state.items, user2, r1.id);
  }

  // ---------------------------------------------------------------------
  // The repository object
  // ---------------------------------------------------------------------

  /** inMemoryRepo: its items and its user counter, updated in place. */
  class Repo {
    var items: seq<Item>
    var nextUserID: UserId

    /** The content of the repository, as Serialize writes it. */
    function Content(): State
      reads this
    {
      State(items, nextUserID)
    }

    ghost predicate Valid()
      reads this
    {
      Inv(Content())
    }

    /** NewInMemoryRepo. */
    constructor ()
      ensures Content() == Empty && Valid()
    {
      items := [];
      nextUserID := 0;
    }

    /** Deserialize: the repository takes on the decoded snapshot. */
    method Deserialize(snapshot: State)
      modifies this
      ensures Content() == snapshot
    {
      items := snapshot.items;
      nextUserID := snapshot.nextUserID;
    }

    /** AddUser: hands out the next user id; it never fails. */
    method AddUser() returns (id: UserId, err: Option<Error>)
      modifies this
      ensures (Content(), id) == NewUser(old(Content())) && err == None
      ensures old(Valid()) ==> Valid() && IsValidUser(Content(), id)
    {
      id := nextUserID;
      nextUserID := nextUserID + 1;
      err := None;
      if old(Valid()) {
        AddUserFacts(old(Content()));
      }
    }

    /** IsValidUserID: 0 <= id < NextUserID. */
    method IsValidUserID(id: UserId) returns (b: bool)
      ensures b <==> 0 <= id < nextUserID
    {
      b := IsValid(id) && id < nextUserID;
    }

    /** SaveOriginalURL (and saveOriginalURL, which does the work under the lock). */
    method SaveOriginalURL(user: UserId, url: string) returns (id: LinkId, err: Option<Error>)
      modifies this
      ensures var r := Save(old(Content()), user, url);
        Content() == r.state && id == r.id && err == r.err
      ensures old(Valid()) ==> Valid() && Extends(old(Content()), Content())
    {
      if old(Valid()) {
        SaveFacts(Content(), user, url);
      }
      var valid := IsValidUserID(user);
      if !valid {
        return 0, Some(ErrUserNotFound);
      }
      err := None;
      var idx := IndexOf(items, url);
      if idx == -1 {
        items := items + [Item(url, [])];
        idx := |items| - 1;
      } else {
        err := Some(ErrLinkAlreadyExists);
      }
      var it := items[idx];
      if user !in it.users {
        items := items[idx := it.(users := it.users + [user])];
      } else {
        assert items[idx := it] == items;
      }
      id := ToLinkId(idx);
    }

    /**
     * SaveOriginalURLs: saves the URLs in order and collects their ids;
     * ErrLinkAlreadyExists is passed over, any other error gives no ids.
     */
    method SaveOriginalURLs(user: UserId, urls: seq<string>) returns (ids: seq<LinkId>, err: Option<Error>)
      modifies this
      ensures var r := SaveAll(old(Content()), user, urls);
        Content() == r.state && ids == r.ids && err == r.err
      ensures old(Valid()) ==> Valid() && Extends(old(Content()), Content())
    {
      var res: seq<LinkId> := [];
      var i := 0;
      while i < |urls|
        invariant 0 <= i <= |urls|
        invariant SaveAll(old(Content()), user, urls[..i]) == Batch(Content(), res, None)
      {
        SaveAllStep(old(Content()), user, urls, i);
        var id, e := SaveOriginalURL(user, urls[i]);
        if e.Some? && e != Some(ErrLinkAlreadyExists) {
          SaveAllSticky(old(Content()), user, urls, i + 1);
          SaveAllValid(old(Content()), user, urls);
          return [], e;
        }
        res := res + [id];
        i := i + 1;
      }
      assert urls[..i] == urls;
      SaveAllValid(old(Content()), user, urls);
      return res, None;
    }

    /** GetOriginalURLByID: the URL stored under `id`, or ErrLinkNotFound. */
    method GetOriginalURLByID(id: LinkId) returns (r: Result<string>)
      ensures r == URLOf(Content(), id)
    {
      if id >= |items| {
        return Err(ErrLinkNotFound);
      }
      return Ok(items[id].originalURL);
    }

    /**
     * GetOriginalURLsByUserID: ErrUserNotFound for an unregistered user,
     * otherwise the user's links, URL to id.
     */
    method GetOriginalURLsByUserID(user: UserId) returns (r: Result<map<string, LinkId>>)
      ensures r == OwnedLinks(Content(), user)
    {
      var valid := IsValidUserID(user);
      if !valid {
        return Err(ErrUserNotFound);
      }
      var res: map<string, LinkId> := map[];
      var idx := 0;
      while idx < |items|
        invariant 0 <= idx <= |items|
        invariant res == Owned(items[..idx], user)
      {
        assert items[..idx + 1][..idx] == items[..idx];
        if user in items[idx].users {
          res := res[items[idx].originalURL := ToLinkId(idx)];
        }
        idx := idx + 1;
      }
      assert items[..idx] == items;
      return Ok(res);
    }

    /** Ping: always nil. */
    method Ping() returns (err: Option<Error>)
      ensures err == None
    {
      return None;
    }

    /** Close: always nil. */
    method Close() returns (err: Option<Error>)
      ensures err == None
    {
      return None;
    }
  }
}
