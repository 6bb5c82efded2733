/**
 * The file-backed repository (repo.fileRepo): an in-memory repository used as
 * a cache, whose whole content is written to one file after every change
 * that the cache reports without error. Opening the repository reads the file
 * back. The file system is a map from file names to what each file holds; the
 * outcome of each system call is a parameter, so every failure path is covered.
 */
module FileRepo {
  import opened Model
  import InMemoryRepo

  /** What a file holds, as far as the repository can tell. */
  datatype FileContent =
    | Blank                                // a file of size 0
    | Snapshot(state: InMemoryRepo.State)  // what Serialize wrote
    | Garbage                              // bytes that do not decode

  /** The file system: the content of every file that exists. */
  class Disk {
    var files: map<string, FileContent>

    constructor ()
      ensures files == map[]
    {
      files := map[];
    }
  }

  /** How a system call ends: without error, or with the error code the system reports. */
  datatype Fault = NoFault | Fails(code: nat)

  /**
   * How the three steps of save end: open, write the snapshot, close. A
   * failed write is `partial` when some bytes landed before the failure;
   * otherwise the file keeps what it held, since it is not truncated on open.
   */
  datatype WriteOutcome =
    | Written
    | OpenFails(code: nat)
    | WriteFails(code: nat, partial: bool)
    | CloseFails(code: nat)

  /**
   * load: the state a repository opens with. A missing or empty file gives
   * an empty repository; a failing stat or open, or content that does not
   * decode, is an error.
   */
  function Loaded(file: Option<FileContent>, stat: Fault, open: Fault): (r: Result<InMemoryRepo.State>)
  {
    if stat.Fails? then Err(ErrOS(stat.code))
    else if file.None? || file.value.Blank? then Ok(InMemoryRepo.Empty)
    else if open.Fails? then Err(ErrOS(open.code))
    else if file.value.Garbage? then Err(ErrJSON)
    else Ok(file.value.state)
  }

  /**
   * save: the file system after writing the snapshot `s` to `name`. A failed
   * open leaves the file alone. Once open has succeeded the file exists (it
   * is created empty when missing); a write that fails before any byte lands
   * leaves it as it was, one that fails midway leaves it half written. Once
   * the write is done, the snapshot is in the file even if close fails.
   */
  function Flushed(files: map<string, FileContent>, name: string, s: InMemoryRepo.State, w: WriteOutcome): (r: map<string, FileContent>)
  {
    match w
    case OpenFails(_) => files
    case WriteFails(_, partial) =>
      if partial then files[name := Garbage]
      else if name in files then files
      else files[name := Blank]
    case _ => files[name := Snapshot(s)]
  }

  /** save: the error it returns. */
  function FlushError(w: WriteOutcome): (r: Option<Error>)
  {
    match w
    case Written => None
    case OpenFails(c) => Some(ErrOS(c))
    case WriteFails(c, _) => Some(ErrOS(c))
    case CloseFails(c) => Some(ErrOS(c))
  }

  /** A missing file and a file of size 0 both open as an empty repository, whatever open would do. */
  lemma LoadedNothing(stat: Fault, open: Fault)
    requires stat == NoFault
    ensures Loaded(None, stat, open) == Ok(InMemoryRepo.Empty)
    ensures Loaded(Some(Blank), stat, open) == Ok(InMemoryRepo.Empty)
  {
  }

  /** Opening fails exactly on a failing stat, a failing open of a non-empty file, or content that does not decode. */
  lemma {:induction false} LoadedErrors(file: Option<FileContent>, stat: Fault, open: Fault)
    ensures Loaded(file, stat, open).Err? <==>
      stat.Fails? || (file.Some? && !file.value.Blank? && (open.Fails? || file.value.Garbage?))
    ensures Loaded(file, stat, open).Ok? && file.Some? && file.value.Snapshot? ==>
      Loaded(file, stat, open).value == file.value.state
  {
  }

  /**
   * Writing a snapshot and reading it back gives the same state, unless the
   * write itself went wrong. A failed open keeps the old file. A write that
   * fails before any byte lands keeps the old snapshot, so a reopen gives the
   * older state (or an empty repository for a file just created); one that
   * fails midway leaves a file that no longer opens.
   */
  lemma {:induction false} ReopenAfterFlush(files: map<string, FileContent>, name: string, s: InMemoryRepo.State, w: WriteOutcome)
    ensures var after := Flushed(files, name, s, w);
      && (w.Written? || w.CloseFails? ==> Loaded(Some(after[name]), NoFault, NoFault) == Ok(s))
      && (w.WriteFails? && w.partial ==> Loaded(Some(after[name]), NoFault, NoFault) == Err(ErrJSON))
      && (w.WriteFails? && !w.partial && name in files ==> after == files)
      && (w.WriteFails? && !w.partial && name !in files ==>
            Loaded(Some(after[name]), NoFault, NoFault) == Ok(InMemoryRepo.Empty))
      && (w.OpenFails? ==> after == files)
    ensures forall other :: other != name && other in files ==>
      other in Flushed(files, name, s, w) && Flushed(files, name, s, w)[other] == files[other]
  {
  }

  /**
   * A registered user saving a URL already stored, of which it is not yet an
   * owner: the call fails with ErrLinkAlreadyExists, so the file is not
   * rewritten, yet the cache has changed, and the file no longer holds it.
   */
  lemma {:induction false} DuplicateLeavesSnapshotBehind(s: InMemoryRepo.State, user: UserId, url: string, i: nat)
    requires InMemoryRepo.Inv(s) && InMemoryRepo.IsValidUser(s, user)
    requires i < |s.items| && s.items[i].originalURL == url && user !in s.items[i].users
    ensures var r := InMemoryRepo.Save(s, user, url);
      && r.err == Some(ErrLinkAlreadyExists)
      && r.state != s
      && user in r.state.items[i].users
  {
    InMemoryRepo.SaveExisting(s, user, url, i);
    var r := InMemoryRepo.Save(s, user, url);
    assert user in r.state.items[i].users;
  }

  /** fileRepo: the file name, the cache it fronts and the file system it writes to. */
  class FileRepo {
    const filename: string
    const cache: InMemoryRepo.Repo
    const disk: Disk

    /** The fields NewFileRepo sets up before loading. */
    constructor (disk: Disk, filename: string)
      ensures this.disk == disk && this.filename == filename
      ensures fresh(cache) && cache.Content() == InMemoryRepo.Empty
    {
      this.disk := disk;
      this.filename := filename;
      this.cache := new InMemoryRepo.Repo();
    }

    /** NewFileRepo: the repository opened from `filename`, or the error that stopped it. */
    static method NewFileRepo(disk: Disk, filename: string, stat: Fault, open: Fault)
      returns (repo: FileRepo?, err: Option<Error>)
      ensures var l := Loaded(if filename in disk.files then Some(disk.files[filename]) else None, stat, open);
        && (l.Err? ==> repo == null && err == Some(l.error))
        && (l.Ok? ==> && repo != null && err == None
                      && fresh(repo) && fresh(repo.cache)
                      && repo.disk == disk && repo.filename == filename
                      && repo.cache.Content() == l.value)
    {
      repo := new FileRepo(disk, filename);
      err := repo.Load(stat, open);
      if err.Some? {
        repo := null;
      }
    }

    /** load: fills the cache from the file. */
    method Load(stat: Fault, open: Fault) returns (err: Option<Error>)
      requires cache.Content() == InMemoryRepo.Empty
      modifies cache
      ensures var l := Loaded(if filename in disk.files then Some(disk.files[filename]) else None, stat, open);
        && (l.Err? ==> err == Some(l.error))
        && (l.Ok? ==> err == None && cache.Content() == l.value)
    {
      if stat.Fails? {
        return Some(ErrOS(stat.code));
      }
      if filename !in disk.files || disk.files[filename].Blank? {
        return None;
      }
      if open.Fails? {
        return Some(ErrOS(open.code));
      }
      match disk.files[filename]
      case Garbage =>
        return Some(ErrJSON);
      case Snapshot(s) =>
        cache.Deserialize(s);
        return None;
    }

    /** save: writes the whole cache to the file. */
    method Save(w: WriteOutcome) returns (err: Option<Error>)
      modifies disk
      ensures disk.files == Flushed(old(disk.files), filename, cache.Content(), w)
      ensures err == FlushError(w)
    {
      match w
      case OpenFails(c) =>
        return Some(ErrOS(c));
      case WriteFails(c, partial) =>
        if partial {
          disk.files := disk.files[filename := Garbage];
        } else if filename !in disk.files {
          disk.files := disk.files[filename := Blank];
        }
        return Some(ErrOS(c));
      case CloseFails(c) =>
        disk.files := disk.files[filename := Snapshot(cache.Content())];
        return Some(ErrOS(c));
      case Written =>
        disk.files := disk.files[filename := Snapshot(cache.Content())];
        return None;
    }

    /** AddUser: the cache never fails here, so the file is always rewritten. */
    method AddUser(w: WriteOutcome) returns (id: UserId, err: Option<Error>)
      modifies cache, disk
      ensures (cache.Content(), id) == InMemoryRepo.NewUser(old(cache.Content()))
      ensures disk.files == Flushed(old(disk.files), filename, cache.Content(), w)
      ensures err == FlushError(w)
    {
      id, err := cache.AddUser();
      if err == None {
        err := Save(w);
      }
    }

    /**
     * SaveOriginalURL: the cache's answer; the file is rewritten only when
     * the cache reported no error, and a failed write is reported with the
     * cache's id, the cache keeping its change.
     */
    method SaveOriginalURL(user: UserId, url: string, w: WriteOutcome) returns (id: LinkId, err: Option<Error>)
      modifies cache, disk
      ensures var r := InMemoryRepo.Save(old(cache.Content()), user, url);
        && cache.Content() == r.state && id == r.id
        && (r.err == None ==> disk.files == Flushed(old(disk.files), filename, r.state, w) && err == FlushError(w))
        && (r.err != None ==> disk.files == old(disk.files) && err == r.err)
    {
      id, err := cache.SaveOriginalURL(user, url);
      if err == None {
        err := Save(w);
      }
    }

    /** SaveOriginalURLs: as SaveOriginalURL, for the whole batch. */
    method SaveOriginalURLs(user: UserId, urls: seq<string>, w: WriteOutcome) returns (ids: seq<LinkId>, err: Option<Error>)
      modifies cache, disk
      ensures var r := InMemoryRepo.SaveAll(old(cache.Content()), user, urls);
        && cache.Content() == r.state && ids == r.ids
        && (r.err == None ==> disk.files == Flushed(old(disk.files), filename, r.state, w) && err == FlushError(w))
        && (r.err != None ==> disk.files == old(disk.files) && err == r.err)
    {
      ids, err := cache.SaveOriginalURLs(user, urls);
      if err == None {
        err := Save(w);
      }
    }

    /** GetOriginalURLByID: answered by the cache; the file is not touched. */
    method GetOriginalURLByID(id: LinkId) returns (r: Result<string>)
      ensures r == InMemoryRepo.URLOf(cache.Content(), id)
    {
      r := cache.GetOriginalURLByID(id);
    }

    /** GetOriginalURLsByUserID: answered by the cache; the file is not touched. */
    method GetOriginalURLsByUserID(user: UserId) returns (r: Result<map<string, LinkId>>)
      ensures r == InMemoryRepo.OwnedLinks(cache.Content(), user)
    {
      r := cache.GetOriginalURLsByUserID(user);
    }

    /** Ping: always nil. */
    method Ping() returns (err: Option<Error>)
      ensures err == None
    {
      return None;
    }

    /** Close: always nil; nothing is written. */
    method Close() returns (err: Option<Error>)
      ensures err == None
    {
      return None;
    }
  }

  /**
   * Two new users save the same URL: the first save is written to the file,
   * the second (ErrLinkAlreadyExists) only changes the cache.
   */
  method SaveShared(repo: FileRepo, url: string) returns (user1: UserId, user2: UserId, e1: Option<Error>, e2: Option<Error>)
    requires repo.cache.Content() == InMemoryRepo.Empty
    modifies repo.cache, repo.disk
    ensures user1 == 0 && user2 == 1
    ensures e1 == None && e2 == Some(ErrLinkAlreadyExists)
    ensures repo.cache.Content() == InMemoryRepo.State([InMemoryRepo.Item(url, [0, 1])], 2)
    ensures repo.filename in repo.disk.files
    ensures repo.disk.files[repo.filename] == Snapshot(InMemoryRepo.State([InMemoryRepo.Item(url, [0])], 2))
  {
    var ignored;
    user1, ignored := repo.AddUser(Written);
    user2, ignored := repo.AddUser(Written);
    ghost var s0 := repo.cache.Content();
    assert s0 == InMemoryRepo.State([], 2);
    InMemoryRepo.SaveNew(s0, user1, url);
    var id1;
    id1, e1 := repo.SaveOriginalURL(user1, url, Written);
    ghost var s1 := repo.cache.Content();
    assert s1 == InMemoryRepo.State([InMemoryRepo.Item(url, [0])], 2);
    InMemoryRepo.SaveExisting(s1, user2, url, 0);
    var id2;
    id2, e2 := repo.SaveOriginalURL(user2, url, Written);
    ghost var s2 := repo.cache.Content();
    assert |s2.items| == 1 && s2.items[0].users == [0] + [1] && s2.items[0].originalURL == url;
    assert [0] + [1] == [0, 1];
    assert s2.items == [InMemoryRepo.Item(url, [0, 1])];
  }

  /** Who owns what in the two states SaveShared leaves behind. */
  lemma SharedOwners(url: string)
    ensures url in InMemoryRepo.Owned([InMemoryRepo.Item(url, [0, 1])], 1)
    ensures url !in InMemoryRepo.Owned([InMemoryRepo.Item(url, [0])], 1)
  {
    assert [InMemoryRepo.Item(url, [0, 1])][..0] == [];
    assert [InMemoryRepo.Item(url, [0])][..0] == [];
  }

  /**
   * The test of reading back: two users, one shared URL and one more URL,
   * then the file is opened again. Both users see the same links as before,
   * because the last save succeeded and wrote the whole cache, including the
   * owner that the duplicate save had added without writing.
   */
  method ReadWriteAfterReopen(url1: string, url2: string)
    returns (before1: Result<map<string, LinkId>>, before2: Result<map<string, LinkId>>,
             after1: Result<map<string, LinkId>>, after2: Result<map<string, LinkId>>)
    requires url1 != url2
    ensures before1.Ok? && before2.Ok? && url1 in before2.value
    ensures after1 == before1 && after2 == before2
  {
    var disk := new Disk();
    var repo, err := FileRepo.NewFileRepo(disk, "links.json", NoFault, NoFault);
    var user1, user2, e1, e2 := SaveShared(repo, url1);
    ghost var s2 := repo.cache.Content();
    InMemoryRepo.SaveNew(s2, user1, url2);
    var id3, e3 := repo.SaveOriginalURL(user1, url2, Written);
    assert e3 == None;
    ghost var s3 := repo.cache.Content();
    assert s3.items == [InMemoryRepo.Item(url1, [0, 1]), InMemoryRepo.Item(url2, [0])];
    InMemoryRepo.OwnedKeys(s3.items, user2, url1);
    before1 := repo.GetOriginalURLsByUserID(user1);
    before2 := repo.GetOriginalURLsByUserID(user2);
    var reopened, err2 := FileRepo.NewFileRepo(disk, "links.json", NoFault, NoFault);
    assert reopened.cache.Content() == s3;
    after1 := reopened.GetOriginalURLsByUserID(user1);
    after2 := reopened.GetOriginalURLsByUserID(user2);
  }

  /**
   * When the duplicate save is the last one, the file is behind the cache:
   * opened again, the repository has lost the second user's ownership of
   * the shared URL.
   */
  method DuplicateLostOnReopen(url: string)
    returns (before2: Result<map<string, LinkId>>, after2: Result<map<string, LinkId>>)
    ensures before2.Ok? && url in before2.value
    ensures after2.Ok? && url !in after2.value
  {
    var disk := new Disk();
    var repo, err := FileRepo.NewFileRepo(disk, "links.json", NoFault, NoFault);
    var user1, user2, e1, e2 := SaveShared(repo, url);
    SharedOwners(url);
    before2 := repo.GetOriginalURLsByUserID(user2);
    var reopened, err2 := FileRepo.NewFileRepo(disk, "links.json", NoFault, NoFault);
    after2 := reopened.GetOriginalURLsByUserID(user2);
  }
}
