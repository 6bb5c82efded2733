/**
 * The shortener service (service.shortener): it normalizes original URLs,
 * registers a user when the caller has none, stores the URLs in the link
 * repository and hands out links whose short URL is a fixed prefix followed
 * by the seven-character code of the link id.
 *
 * The repository is the in-memory one. URL parsing (`url.ParseRequestURI`
 * followed by `String`) is a function the service is given: it answers the
 * normalized text, or None when the text does not parse.
 */
module Service {
  import opened Model
  import InMemoryRepo
  import LinkIdEncoder
  import ZBase32

  /** Parses and prints back a request URI, or None when it does not parse. */
  type Parser = string -> Option<string>

  predicate EndsWithSlash(s: string) {
    |s| > 0 && s[|s| - 1] == '/'
  }

  /** NewShortener: the base URL, with a '/' added unless it already ends in one. */
  function ShortURLPrefix(baseURL: string): (prefix: string)
    ensures EndsWithSlash(prefix)
    ensures baseURL <= prefix && |prefix| <= |baseURL| + 1
  {
    if EndsWithSlash(baseURL) then baseURL else baseURL + "/"
  }

  /** A prefix is its own prefix: the '/' is added only when it is missing. */
  lemma PrefixIdempotent(baseURL: string)
    ensures ShortURLPrefix(ShortURLPrefix(baseURL)) == ShortURLPrefix(baseURL)
    ensures EndsWithSlash(baseURL) <==> ShortURLPrefix(baseURL) == baseURL
  {
  }

  /**
   * createShortURL: the prefix followed by the code of `id`. The code never
   * fails to encode, so the error branch of the source is never taken.
   */
  function ShortURLFor(prefix: string, id: LinkId): (shortURL: string)
    ensures |shortURL| == |prefix| + 7 && shortURL[..|prefix|] == prefix
    ensures LinkIdEncoder.DecodeFromString(shortURL[|prefix|..]) == Ok(id)
  {
    var code := LinkIdEncoder.EncodeToString(id).value;
    assert (prefix + code)[|prefix|..] == code;
    prefix + code
  }

  /** Different ids get different short URLs. */
  lemma {:induction false} ShortURLInjective(prefix: string, a: LinkId, b: LinkId)
    requires ShortURLFor(prefix, a) == ShortURLFor(prefix, b)
    ensures a == b
  {
    assert LinkIdEncoder.DecodeFromString(ShortURLFor(prefix, a)[|prefix|..]) == Ok(a);
  }

  /** createLink. */
  function LinkFor(prefix: string, id: LinkId, originalURL: string): (link: Link)
  {
    Link(ShortURLFor(prefix, id), originalURL)
  }

  /** The code part of a short URL made with `prefix`. */
  function CodeOf(prefix: string, link: Link): string
  {
    if |prefix| <= |link.shortURL| then link.shortURL[|prefix|..] else ""
  }

  /** model.NormalizeOriginalURL: ErrInvalidURL for the empty text and for text that does not parse. */
  function Normalize(parse: Parser, url: string): (r: Result<string>)
    ensures r.Err? ==> r.error == ErrInvalidURL
    ensures r.Ok? <==> url != "" && parse(url).Some?
    ensures r.Ok? ==> r.value == parse(url).value
  {
    if url == "" then Err(ErrInvalidURL)
    else match parse(url)
      case None => Err(ErrInvalidURL)
      case Some(u) => Ok(u)
  }

  /**
   * model.NormalizeOriginalURLs: every URL normalized in order, or the first
   * error. The empty list gives the empty list.
   */
  function NormalizeAll(parse: Parser, urls: seq<string>): (r: Result<seq<string>>)
    ensures r.Ok? <==> forall i :: 0 <= i < |urls| ==> Normalize(parse, urls[i]).Ok?
    ensures r.Ok? ==> |r.value| == |urls| && forall i :: 0 <= i < |urls| ==> r.value[i] == Normalize(parse, urls[i]).value
    ensures r.Err? ==> r.error == ErrInvalidURL
    decreases |urls|
  {
    if urls == [] then Ok([])
    else
      match NormalizeAll(parse, urls[..|urls| - 1])
      case Err(e) => Err(e)
      case Ok(init) =>
        match Normalize(parse, urls[|urls| - 1])
        case Err(e) => Err(e)
        case Ok(u) => Ok(init + [u])
  }

  /** addUser, for a caller that passed a user id: a new user only when the id is invalid. */
  function EnsureUser(s: InMemoryRepo.State, user: UserId): (r: (InMemoryRepo.State, UserId))
  {
    if IsValid(user) then (s, user) else InMemoryRepo.NewUser(s)
  }

  /** The outcome of CreateLink: the repository, the caller's user id, the link and the error. */
  datatype Created = Created(state: InMemoryRepo.State, user: UserId, link: Link, err: Option<Error>)

  /** CreateLink, for a caller that passed a user id. */
  function CreateOne(s: InMemoryRepo.State, prefix: string, parse: Parser, user: UserId, url: string): (r: Created)
  {
    match Normalize(parse, url)
    case Err(e) => Created(s, user, EmptyLink, Some(e))
    case Ok(norm) =>
      var (s1, u) := EnsureUser(s, user);
      var saved := InMemoryRepo.Save(s1, u, norm);
      if saved.err.Some? && saved.err != Some(ErrLinkAlreadyExists) then
        Created(saved.state, u, EmptyLink, saved.err)
      else
        Created(saved.state, u, LinkFor(prefix, saved.id, norm), saved.err)
  }

  /** The outcome of CreateLinks: the repository, the caller's user id, the links and the error. */
  datatype CreatedAll = CreatedAll(state: InMemoryRepo.State, user: UserId, links: seq<Link>, err: Option<Error>)

  /** The links of the ids, each paired with the URL at the same position. */
  function LinksFor(prefix: string, ids: seq<LinkId>, urls: seq<string>): (links: seq<Link>)
    requires |ids| == |urls|
    ensures |links| == |ids|
    decreases |ids|
  {
    if ids == [] then []
    else LinksFor(prefix, ids[..|ids| - 1], urls[..|urls| - 1]) + [LinkFor(prefix, ids[|ids| - 1], urls[|urls| - 1])]
  }

  /** Link i of LinksFor pairs id i with URL i. */
  lemma {:induction false} LinksForAt(prefix: string, ids: seq<LinkId>, urls: seq<string>, i: nat)
    requires |ids| == |urls| && i < |ids|
    ensures LinksFor(prefix, ids, urls)[i] == LinkFor(prefix, ids[i], urls[i])
    decreases |ids|
  {
    if i < |ids| - 1 {
      LinksForAt(prefix, ids[..|ids| - 1], urls[..|urls| - 1], i);
    }
  }

  /** CreateLinks, for a caller that passed a user id. */
  function CreateAll(s: InMemoryRepo.State, prefix: string, parse: Parser, user: UserId, urls: seq<string>): (r: CreatedAll)
  {
    match NormalizeAll(parse, urls)
    case Err(e) => CreatedAll(s, user, [], Some(e))
    case Ok(norms) =>
      var (s1, u) := EnsureUser(s, user);
      var batch := InMemoryRepo.SaveAll(s1, u, norms);
      if batch.err.Some? then CreatedAll(batch.state, u, [], batch.err)
      else CreatedAll(batch.state, u, LinksFor(prefix, batch.ids, norms), None)
  }

  /** GetLinkByShortURL: the code is decoded first, and the repository is asked only when that succeeds. */
  function LinkByShortURL(s: InMemoryRepo.State, prefix: string, code: string): (r: Result<Link>)
  {
    match LinkIdEncoder.DecodeFromString(code)
    case Err(e) => Err(e)
    case Ok(id) =>
      match InMemoryRepo.URLOf(s, id)
      case Err(e) => Err(e)
      case Ok(url) => Ok(LinkFor(prefix, id, url))
  }

  /** GetLinksByUserID: the links it answers with, in some order. */
  function UserLinks(s: InMemoryRepo.State, prefix: string, user: UserId): (links: set<Link>)
  {
    if !InMemoryRepo.IsValidUser(s, user) then {}
    else
      var m := InMemoryRepo.Owned(s.items, user);
      set url | url in m :: LinkFor(prefix, m[url], url)
  }

  /** A link is among a user's links when it is the link of one of the URLs the user owns. */
  lemma UserLinksMember(s: InMemoryRepo.State, prefix: string, user: UserId, link: Link)
    requires InMemoryRepo.IsValidUser(s, user)
    ensures var m := InMemoryRepo.Owned(s.items, user);
      link in UserLinks(s, prefix, user) <==>
        link.originalURL in m && link == LinkFor(prefix, m[link.originalURL], link.originalURL)
  {
  }

  // ---------------------------------------------------------------------
  // Properties of the service
  // ---------------------------------------------------------------------

  /** A URL that does not normalize is refused before the repository is asked: no user is registered. */
  lemma CreateOneInvalidURL(s: InMemoryRepo.State, prefix: string, parse: Parser, user: UserId, url: string)
    requires Normalize(parse, url).Err?
    ensures CreateOne(s, prefix, parse, user, url) == Created(s, user, EmptyLink, Some(ErrInvalidURL))
  {
  }

  /**
   * With a URL that normalizes: a valid user id is kept and no user is
   * registered; an invalid one is replaced by a newly registered user. The
   * link is made (also when the URL was already stored, with
   * ErrLinkAlreadyExists), it holds the normalized URL, and its short URL
   * leads back to it and is among the user's links (below 2^32 links).
   */
  lemma {:induction false} CreateOneFacts(s: InMemoryRepo.State, prefix: string, parse: Parser, user: UserId, url: string)
    requires InMemoryRepo.Inv(s) && |s.items| < TwoTo32
    requires Normalize(parse, url).Ok?
    requires IsValid(user) ==> InMemoryRepo.IsValidUser(s, user)
    ensures var r := CreateOne(s, prefix, parse, user, url);
      && (IsValid(user) ==> r.user == user && r.state.nextUserID == s.nextUserID)
      && (!IsValid(user) ==> r.user == s.nextUserID && r.state.nextUserID == s.nextUserID + 1)
      && InMemoryRepo.Inv(r.state)
      && (r.err == None || r.err == Some(ErrLinkAlreadyExists))
      && r.link.originalURL == Normalize(parse, url).value
      && LinkByShortURL(r.state, prefix, CodeOf(prefix, r.link)) == Ok(r.link)
      && r.link in UserLinks(r.state, prefix, r.user)
  {
    var norm := Normalize(parse, url).value;
    var (s1, u) := EnsureUser(s, user);
    if !IsValid(user) {
      InMemoryRepo.AddUserFacts(s);
    }
    var saved := InMemoryRepo.Save(s1, u, norm);
    InMemoryRepo.SaveFacts(s1, u, norm);
    InMemoryRepo.SaveThenRead(s1, u, norm);
    var r := CreateOne(s, prefix, parse, user, url);
    assert r.link == LinkFor(prefix, saved.id, norm);
    assert CodeOf(prefix, r.link) == r.link.shortURL[|prefix|..];
    var m := InMemoryRepo.Owned(saved.state.items, u);
    assert norm in m && m[norm] == saved.id;
  }

  /**
   * CreateLinks with URLs that all normalize, from a registered user or a
   * caller without one: it succeeds with one link per URL, in order; link i
   * holds normalized URL i and its short URL leads back to it (below 2^32
   * links).
   */
  lemma {:induction false} CreateAllFacts(s: InMemoryRepo.State, prefix: string, parse: Parser, user: UserId, urls: seq<string>)
    requires InMemoryRepo.Inv(s) && |s.items| + |urls| <= TwoTo32
    requires NormalizeAll(parse, urls).Ok?
    requires IsValid(user) ==> InMemoryRepo.IsValidUser(s, user)
    ensures var r := CreateAll(s, prefix, parse, user, urls);
      && r.err == None && |r.links| == |urls|
      && (IsValid(user) ==> r.user == user)
      && (!IsValid(user) ==> r.user == s.nextUserID)
      && InMemoryRepo.Inv(r.state)
      && forall i :: 0 <= i < |urls| ==>
           && r.links[i].originalURL == Normalize(parse, urls[i]).value
           && LinkByShortURL(r.state, prefix, CodeOf(prefix, r.links[i])) == Ok(r.links[i])
  {
    var norms := NormalizeAll(parse, urls).value;
    var (s1, u) := EnsureUser(s, user);
    if !IsValid(user) {
      InMemoryRepo.AddUserFacts(s);
    }
    InMemoryRepo.SaveAllValidUser(s1, u, norms);
    var batch := InMemoryRepo.SaveAll(s1, u, norms);
    var r := CreateAll(s, prefix, parse, user, urls);
    assert r.links == LinksFor(prefix, batch.ids, norms);
    forall i | 0 <= i < |urls|
      ensures && r.links[i].originalURL == Normalize(parse, urls[i]).value
              && LinkByShortURL(r.state, prefix, CodeOf(prefix, r.links[i])) == Ok(r.links[i])
    {
      LinksForAt(prefix, batch.ids, norms, i);
      assert r.links[i] == LinkFor(prefix, batch.ids[i], norms[i]);
      assert CodeOf(prefix, r.links[i]) == r.links[i].shortURL[|prefix|..];
    }
  }

  /** A batch with a URL that does not normalize is refused before the repository is asked. */
  lemma CreateAllInvalidURL(s: InMemoryRepo.State, prefix: string, parse: Parser, user: UserId, urls: seq<string>)
    requires exists i :: 0 <= i < |urls| && Normalize(parse, urls[i]).Err?
    ensures CreateAll(s, prefix, parse, user, urls) == CreatedAll(s, user, [], Some(ErrInvalidURL))
  {
  }

  /**
   * An empty batch still goes through addUser: a caller without a valid id
   * is registered, and the answer is no links and no error.
   */
  lemma CreateAllEmpty(s: InMemoryRepo.State, prefix: string, parse: Parser, user: UserId)
    requires !IsValid(user)
    ensures CreateAll(s, prefix, parse, user, []) ==
      CreatedAll(s.(nextUserID := s.nextUserID + 1), s.nextUserID, [], None)
  {
  }

  /**
   * A well-formed id that was never registered is passed on to the
   * repository, which refuses it: no link, ErrUserNotFound, nothing changed.
   */
  lemma {:induction false} CreateOneUnknownUser(s: InMemoryRepo.State, prefix: string, parse: Parser, user: UserId, url: string)
    requires IsValid(user) && !InMemoryRepo.IsValidUser(s, user)
    requires Normalize(parse, url).Ok?
    ensures CreateOne(s, prefix, parse, user, url) == Created(s, user, EmptyLink, Some(ErrUserNotFound))
  {
    InMemoryRepo.SaveInvalidUser(s, user, Normalize(parse, url).value);
  }

  /** The same for a batch: a non-empty batch from an unregistered id gives no links and changes nothing. */
  lemma {:induction false} CreateAllUnknownUser(s: InMemoryRepo.State, prefix: string, parse: Parser, user: UserId, urls: seq<string>)
    requires IsValid(user) && !InMemoryRepo.IsValidUser(s, user)
    requires urls != [] && NormalizeAll(parse, urls).Ok?
    ensures CreateAll(s, prefix, parse, user, urls) == CreatedAll(s, user, [], Some(ErrUserNotFound))
  {
    InMemoryRepo.SaveAllInvalidUser(s, user, NormalizeAll(parse, urls).value);
  }

  /** A code that does not decode is refused whatever the repository holds. */
  lemma LinkByBadCode(s: InMemoryRepo.State, t: InMemoryRepo.State, prefix: string, code: string)
    requires LinkIdEncoder.DecodeFromString(code).Err?
    ensures LinkByShortURL(s, prefix, code) == LinkByShortURL(t, prefix, code)
    ensures LinkByShortURL(s, prefix, code) == Err(LinkIdEncoder.DecodeFromString(code).error)
  {
  }

  /**
   * GetLinkByShortURL decodes its whole argument, so it takes the code alone:
   * a full short URL, whose prefix ends in '/', is refused as corrupt input,
   * whatever the repository holds.
   */
  lemma {:induction false} FullShortURLRefused(s: InMemoryRepo.State, baseURL: string, id: LinkId)
    ensures var prefix := ShortURLPrefix(baseURL);
      LinkByShortURL(s, prefix, ShortURLFor(prefix, id)) == Err(ErrCorruptInput)
  {
    var prefix := ShortURLPrefix(baseURL);
    var url := ShortURLFor(prefix, id);
    assert url[|prefix| - 1] == prefix[|prefix| - 1] == '/';
    ZBase32.SymbolValueDefined('/');
  }

  /**
   * GetLinksByUserID answers exactly the links of the URLs the user owns,
   * each with the short URL of its own index (below 2^32 links).
   */
  lemma {:induction false} UserLinksExact(s: InMemoryRepo.State, prefix: string, user: UserId, link: Link)
    requires InMemoryRepo.Inv(s) && |s.items| <= TwoTo32 && InMemoryRepo.IsValidUser(s, user)
    ensures link in UserLinks(s, prefix, user) <==>
      exists i :: 0 <= i < |s.items| && user in s.items[i].users && link == LinkFor(prefix, i, s.items[i].originalURL)
  {
    var m := InMemoryRepo.Owned(s.items, user);
    if link in UserLinks(s, prefix, user) {
      var url :| url in m && link == LinkFor(prefix, m[url], url);
      InMemoryRepo.OwnedKeys(s.items, user, url);
      var i :| 0 <= i < |s.items| && s.items[i].originalURL == url && user in s.items[i].users;
      InMemoryRepo.OwnedValue(s.items, user, i);
    }
    if exists i :: 0 <= i < |s.items| && user in s.items[i].users && link == LinkFor(prefix, i, s.items[i].originalURL) {
      var i :| 0 <= i < |s.items| && user in s.items[i].users && link == LinkFor(prefix, i, s.items[i].originalURL);
      InMemoryRepo.OwnedValue(s.items, user, i);
    }
  }

  /** model.UserID behind the caller's reference: addUser writes the new id through it. */
  class UserIdCell {
    var id: UserId

    constructor (id: UserId)
      ensures this.id == id
    {
      this.id := id;
    }
  }

  /** shortener: the repository, the short URL prefix and the URL parser. */
  class Shortener {
    const repo: InMemoryRepo.Repo
    const shortURLPrefix: string
    const parse: Parser

    /** NewShortener. */
    constructor (repo: InMemoryRepo.Repo, baseURL: string, parse: Parser)
      ensures this.repo == repo && this.parse == parse
      ensures shortURLPrefix == ShortURLPrefix(baseURL)
    {
      this.repo := repo;
      this.shortURLPrefix := ShortURLPrefix(baseURL);
      this.parse := parse;
    }

    /**
     * addUser: ErrInvalidUserID without a reference; a valid id is left alone;
     * an invalid one is replaced by a newly registered user.
     */
    method AddUser(userID: UserIdCell?) returns (err: Option<Error>)
      modifies repo, userID
      ensures userID == null ==> err == Some(ErrInvalidUserID) && repo.Content() == old(repo.Content())
      ensures userID != null ==> err == None && (repo.Content(), userID.id) == EnsureUser(old(repo.Content()), old(userID.id))
    {
      if userID == null {
        return Some(ErrInvalidUserID);
      }
      if !IsValid(userID.id) {
        var e;
        userID.id, e := repo.AddUser();
        if e.Some? {
          return e;
        }
      }
      return None;
    }

    /** CreateLink. */
    method CreateLink(userID: UserIdCell?, originalURL: string) returns (link: Link, err: Option<Error>)
      modifies repo, userID
      ensures userID == null ==>
        && repo.Content() == old(repo.Content()) && link == EmptyLink
        && err == Some(if Normalize(parse, originalURL).Err? then ErrInvalidURL else ErrInvalidUserID)
      ensures userID != null ==>
        Created(repo.Content(), userID.id, link, err) ==
          CreateOne(old(repo.Content()), shortURLPrefix, parse, old(userID.id), originalURL)
    {
      var norm := Normalize(parse, originalURL);
      if norm.Err? {
        return EmptyLink, Some(norm.error);
      }
      err := AddUser(userID);
      if err.Some? {
        return EmptyLink, err;
      }
      var id;
      id, err := repo.SaveOriginalURL(userID.id, norm.value);
      if err.Some? && err != Some(ErrLinkAlreadyExists) {
        return EmptyLink, err;
      }
      link := LinkFor(shortURLPrefix, id, norm.value);
    }

    /** CreateLinks: the links are made in a loop, one per stored id. */
    method CreateLinks(userID: UserIdCell?, originalURLs: seq<string>) returns (links: seq<Link>, err: Option<Error>)
      modifies repo, userID
      ensures userID == null ==>
        && repo.Content() == old(repo.Content()) && links == []
        && err == Some(if NormalizeAll(parse, originalURLs).Err? then ErrInvalidURL else ErrInvalidUserID)
      ensures userID != null ==>
        CreatedAll(repo.Content(), userID.id, links, err) ==
          CreateAll(old(repo.Content()), shortURLPrefix, parse, old(userID.id), originalURLs)
    {
      var norms := NormalizeAll(parse, originalURLs);
      if norms.Err? {
        return [], Some(norms.error);
      }
      err := AddUser(userID);
      if err.Some? {
        return [], err;
      }
      var ids;
      ids, err := repo.SaveOriginalURLs(userID.id, norms.value);
      if err.Some? {
        return [], err;
      }
      links := MakeLinks(ids, norms.value);
    }

    /** The loop of CreateLinks: link i pairs id i with URL i. */
    method MakeLinks(ids: seq<LinkId>, urls: seq<string>) returns (links: seq<Link>)
      requires |ids| == |urls|
      ensures links == LinksFor(shortURLPrefix, ids, urls)
    {
      links := [];
      var idx := 0;
      while idx < |ids|
        invariant 0 <= idx <= |ids|
        invariant links == LinksFor(shortURLPrefix, ids[..idx], urls[..idx])
      {
        assert ids[..idx + 1][..idx] == ids[..idx] && urls[..idx + 1][..idx] == urls[..idx];
        links := links + [LinkFor(shortURLPrefix, ids[idx], urls[idx])];
        idx := idx + 1;
      }
      assert ids[..idx] == ids && urls[..idx] == urls;
    }

    /** GetLinkByShortURL: read only. */
    method GetLinkByShortURL(shortURL: string) returns (r: Result<Link>)
      ensures r == LinkByShortURL(repo.Content(), shortURLPrefix, shortURL)
    {
      var id := LinkIdEncoder.DecodeFromString(shortURL);
      if id.Err? {
        return Err(id.error);
      }
      var url := repo.GetOriginalURLByID(id.value);
      if url.Err? {
        return Err(url.error);
      }
      return Ok(LinkFor(shortURLPrefix, id.value, url.value));
    }

    /**
     * GetLinksByUserID: no links (and no error) for an invalid or unknown
     * user; otherwise the user's links, each once, in the order the map
     * hands them out.
     */
    method GetLinksByUserID(user: UserId) returns (links: seq<Link>, err: Option<Error>)
      ensures err == None
      ensures forall l :: l in links <==> l in UserLinks(repo.Content(), shortURLPrefix, user)
      ensures forall i, j :: 0 <= i < j < |links| ==> links[i].originalURL != links[j].originalURL
    {
      if !IsValid(user) {
        return [], None;
      }
      var owned := repo.GetOriginalURLsByUserID(user);
      if owned.Err? {
        assert owned.error == ErrUserNotFound;
        return [], None;
      }
      var m := owned.value;
      links := LinksOf(m);
      forall l ensures l in links <==> l in UserLinks(repo.Content(), shortURLPrefix, user) {
        UserLinksMember(repo.Content(), shortURLPrefix, user, l);
      }
      err := None;
    }

    /** The loop of GetLinksByUserID: one link per entry of `m`, in the order the map hands them out. */
    method LinksOf(m: map<string, LinkId>) returns (links: seq<Link>)
      ensures forall l :: l in links <==> l.originalURL in m && l == LinkFor(shortURLPrefix, m[l.originalURL], l.originalURL)
      ensures forall i, j :: 0 <= i < j < |links| ==> links[i].originalURL != links[j].originalURL
    {
      var left := m.Keys;
      ghost var done: set<string> := {};
      links := [];
      while left != {}
        invariant left <= m.Keys && done == m.Keys - left
        invariant forall l :: l in links <==>
          l.originalURL in done && l == LinkFor(shortURLPrefix, m[l.originalURL], l.originalURL)
        invariant forall i, j :: 0 <= i < j < |links| ==> links[i].originalURL != links[j].originalURL
        invariant forall i :: 0 <= i < |links| ==> links[i].originalURL in done
        decreases left
      {
        var url :| url in left;
        links := links + [LinkFor(shortURLPrefix, m[url], url)];
        left := left - {url};
        done := done + {url};
      }
    }

    /** Ping: the repository's answer, which is always nil. */
    method Ping() returns (err: Option<Error>)
      ensures err == None
    {
      err := repo.Ping();
    }
  }
}
