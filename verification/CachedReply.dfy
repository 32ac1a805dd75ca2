/** How the server answers a request for patches from the list it keeps in memory. */
module CachedReply {
  import opened Lists
  import opened Options
  import opened SuffixOrder

  const HASH_LENGTH := 4
  const MAX_FILENAME_LENGTH := 512

  /** A file of a list: its name, the two lengths that are sent, and where its data is read from. */
  datatype Entry = Entry(filename: string, dataLength: nat, fileLength: nat, context: nat)

  /** A file of the cache, and the bytes its data begins with. */
  datatype CacheFile = CacheFile(entry: Entry, data: seq<Byte>)

  datatype Cache = Cache(loaded: bool, appName: string, minTime: real, patched: seq<CacheFile>, added: seq<CacheFile>)

  /** A file that the client asks for: with a hash when it has an older version. */
  datatype Wanted = Wanted(filename: string, data: Option<seq<Byte>>)

  /** The list is None when it cannot be read. */
  datatype Request = Request(appName: string, lastUpdateDate: real, files: Option<seq<Wanted>>)

  /** A request is dropped, answered from the cache, or passed on to the database. */
  datatype Reply = Dropped | FromCache(files: seq<Entry>) | Database

  // ---------------------------------------------------------------- one file

  /** The first file of that name, or the length. */
  function Find(files: seq<CacheFile>, name: string): (j: nat)
    ensures j <= |files| && (j < |files| ==> files[j].entry.filename == name)
    ensures forall i :: 0 <= i < j ==> files[i].entry.filename != name
  {
    if files == [] || files[0].entry.filename == name then 0 else 1 + Find(files[1..], name)
  }

  lemma FindIs(files: seq<CacheFile>, name: string, j: nat)
    requires j <= |files| && (j < |files| ==> files[j].entry.filename == name)
    requires forall i :: 0 <= i < j ==> files[i].entry.filename != name
    ensures Find(files, name) == j
  {
  }

  datatype Answer = Hit(entry: Entry) | Miss | Malformed

  /** Patched files begin with their hash. */
  predicate WellFormed(c: Cache) {
    forall i :: 0 <= i < |c.patched| ==> |c.patched[i].data| >= HASH_LENGTH
  }

  function Resolve(c: Cache, w: Wanted): Answer
    requires WellFormed(c)
  {
    match w.data
    case Some(hash) =>
      if |hash| != HASH_LENGTH then Malformed
      else
        var j := Find(c.patched, w.filename);
        if j < |c.patched| && c.patched[j].data[..HASH_LENGTH] == hash then Hit(c.patched[j].entry) else Miss
    case None =>
      var j := Find(c.added, w.filename);
      if j < |c.added| then Hit(c.added[j].entry) else Miss
  }

  /** A file is found only under its own name. */
  lemma ResolveName(c: Cache, w: Wanted)
    requires WellFormed(c)
    ensures Resolve(c, w).Hit? ==> Resolve(c, w).entry.filename == w.filename
  {
  }

  // ---------------------------------------------------------------- the list that is sent

  function NamedAt(list: seq<Entry>, name: string): (i: nat)
    ensures i <= |list| && (i < |list| ==> list[i].filename == name)
    ensures forall k :: 0 <= k < i ==> list[k].filename != name
  {
    if list == [] || list[0].filename == name then 0 else 1 + NamedAt(list[1..], name)
  }

  predicate SameLengths(a: Entry, b: Entry) {
    a.dataLength == b.dataLength && a.fileLength == b.fileLength
  }

  /** AddFile for a file without data: too long a name is left out, a file with the same name and
      lengths is kept, one with other lengths is replaced. */
  function Added(list: seq<Entry>, e: Entry): seq<Entry> {
    if |e.filename| > MAX_FILENAME_LENGTH then list
    else
      var i := NamedAt(list, e.filename);
      if i == |list| then list + [e]
      else if SameLengths(list[i], e) then list
      else RemovedAt(list, i) + [e]
  }

  method AddFile(list: seq<Entry>, e: Entry) returns (r: seq<Entry>)
    ensures r == Added(list, e)
  {
    if |e.filename| > MAX_FILENAME_LENGTH {
      return list;
    }
    var i := 0;
    while i < |list|
      invariant i <= NamedAt(list, e.filename)
    {
      if list[i].filename == e.filename {
        if SameLengths(list[i], e) {
          return list;
        }
        return RemovedAt(list, i) + [e];
      }
      i := i + 1;
    }
    return list + [e];
  }

  /** Every name occurs once. */
  ghost predicate Distinct(list: seq<Entry>) {
    forall i, j :: 0 <= i < j < |list| ==> list[i].filename != list[j].filename
  }

  /** The list has the file's name, with the file's lengths. */
  ghost predicate Carries(list: seq<Entry>, e: Entry) {
    exists x :: x in list && x.filename == e.filename && SameLengths(x, e)
  }

  /** Afterwards the list has the file's name, with the file's lengths, and every other entry as before. */
  lemma AddedMeaning(list: seq<Entry>, e: Entry)
    requires Distinct(list)
    ensures var r := Added(list, e);
      && Distinct(r)
      && (forall x :: x in r ==> x in list || x == e)
      && (forall x :: x in list && x.filename != e.filename ==> x in r)
      && (|e.filename| > MAX_FILENAME_LENGTH ==> r == list)
      && (|e.filename| <= MAX_FILENAME_LENGTH ==> Carries(r, e))
  {
    var i := NamedAt(list, e.filename);
    if |e.filename| <= MAX_FILENAME_LENGTH {
      if i < |list| && SameLengths(list[i], e) {
        assert list[i] in list;
      } else if i < |list| {
        ReplacedMeaning(list, i, e, RemovedAt(list, i) + [e]);
      } else {
        assert e in list + [e];
      }
    }
  }

  lemma ReplacedMeaning(list: seq<Entry>, i: nat, e: Entry, r: seq<Entry>)
    requires Distinct(list) && i < |list| && list[i].filename == e.filename && r == RemovedAt(list, i) + [e]
    ensures Distinct(r) && e in r
    ensures forall x :: x in r ==> x in list || x == e
    ensures forall x :: x in list && x.filename != e.filename ==> x in r
  {
    RemovedAtMembers(list, i);
    forall j | 0 <= j < |r| - 1
      ensures r[j] == list[if j < i then j else j + 1] && r[j].filename != e.filename
    {
    }
    assert r[|r| - 1] == e;
    assert Distinct(r);
  }

  /** The files put together for requests that are all found. */
  function Collected(c: Cache, files: seq<Wanted>): seq<Entry>
    requires WellFormed(c) && forall i :: 0 <= i < |files| ==> Resolve(c, files[i]).Hit?
  {
    if files == [] then []
    else Added(Collected(c, files[..|files| - 1]), Resolve(c, files[|files| - 1]).entry)
  }

  /** The last request for a name. */
  predicate LastOf(files: seq<Wanted>, i: int) {
    0 <= i < |files| && forall k :: i < k < |files| ==> files[k].filename != files[i].filename
  }

  /** What a list of files put together has to be. */
  ghost predicate Meant(c: Cache, files: seq<Wanted>, list: seq<Entry>)
    requires WellFormed(c) && forall i :: 0 <= i < |files| ==> Resolve(c, files[i]).Hit?
  {
    && Distinct(list)
    && (forall x :: x in list ==>
          |x.filename| <= MAX_FILENAME_LENGTH && exists i :: 0 <= i < |files| && Resolve(c, files[i]) == Hit(x))
    && (forall i :: LastOf(files, i) && |files[i].filename| <= MAX_FILENAME_LENGTH ==>
          Carries(list, Resolve(c, files[i]).entry))
  }

  lemma OneMore(c: Cache, files: seq<Wanted>, before: seq<Wanted>, w: Wanted, list: seq<Entry>, e: Entry)
    requires WellFormed(c) && forall i :: 0 <= i < |files| ==> Resolve(c, files[i]).Hit?
    requires files == before + [w] && Resolve(c, w) == Hit(e)
    requires (forall i :: 0 <= i < |before| ==> Resolve(c, before[i]).Hit?) && Meant(c, before, list)
    ensures Meant(c, files, Added(list, e))
  {
    AddedMeaning(list, e);
    ResolveName(c, w);
    forall x | x in Added(list, e)
      ensures |x.filename| <= MAX_FILENAME_LENGTH && exists i :: 0 <= i < |files| && Resolve(c, files[i]) == Hit(x)
    {
      if x in list {
        var i :| 0 <= i < |before| && Resolve(c, before[i]) == Hit(x);
        assert Resolve(c, files[i]) == Hit(x);
      } else {
        assert Resolve(c, files[|before|]) == Hit(x);
      }
    }
    forall i | LastOf(files, i) && |files[i].filename| <= MAX_FILENAME_LENGTH
      ensures Carries(Added(list, e), Resolve(c, files[i]).entry)
    {
      if i < |before| {
        StillCarried(c, files, before, w, list, e, i);
      }
    }
  }

  lemma StillCarried(c: Cache, files: seq<Wanted>, before: seq<Wanted>, w: Wanted, list: seq<Entry>, e: Entry, i: nat)
    requires WellFormed(c) && forall i :: 0 <= i < |files| ==> Resolve(c, files[i]).Hit?
    requires files == before + [w] && Resolve(c, w) == Hit(e) && i < |before| && LastOf(files, i)
    requires (forall i :: 0 <= i < |before| ==> Resolve(c, before[i]).Hit?) && Meant(c, before, list)
    requires |files[i].filename| <= MAX_FILENAME_LENGTH
    ensures Carries(Added(list, e), Resolve(c, files[i]).entry)
  {
    assert before[i] == files[i];
    assert LastOf(before, i) by {
      assert forall k :: i < k < |before| ==> before[k] == files[k];
    }
    assert files[|before|].filename != files[i].filename;
    ResolveName(c, w);
    ResolveName(c, files[i]);
    AddedMeaning(list, e);
    var x :| x in list && x.filename == files[i].filename && SameLengths(x, Resolve(c, files[i]).entry);
    assert x in Added(list, e);
  }

  /** What is sent: one entry for each name that was asked for and is not too long, found for that
      name, with the lengths found for the last request. */
  lemma {:induction false} CollectedMeaning(c: Cache, files: seq<Wanted>)
    requires WellFormed(c) && forall i :: 0 <= i < |files| ==> Resolve(c, files[i]).Hit?
    ensures Meant(c, files, Collected(c, files))
    decreases |files|
  {
    if files != [] {
      var n := |files| - 1;
      var before, w, list := files[..n], files[n], Collected(c, files[..n]);
      CollectedMeaning(c, before);
      assert forall i :: 0 <= i < n ==> before[i] == files[i];
      OneMore(c, files, before, w, list, Resolve(c, w).entry);
    }
  }

  // ---------------------------------------------------------------- the reply

  /** The cache is asked only about its own application, by a client that is not newer than it. */
  predicate Asks(c: Cache, r: Request) {
    r.appName == c.appName && r.lastUpdateDate != 0.0 && c.loaded && c.minTime != 0.0 && r.lastUpdateDate > c.minTime
  }

  /** The first file that is not found, or the length. */
  function FirstProblem(c: Cache, files: seq<Wanted>): (p: nat)
    requires WellFormed(c)
    ensures p <= |files| && (p < |files| ==> !Resolve(c, files[p]).Hit?)
    ensures forall i :: 0 <= i < p ==> Resolve(c, files[i]).Hit?
  {
    if files == [] || !Resolve(c, files[0]).Hit? then 0 else 1 + FirstProblem(c, files[1..])
  }

  lemma FirstProblemIs(c: Cache, files: seq<Wanted>, p: nat)
    requires WellFormed(c) && p <= |files| && (p < |files| ==> !Resolve(c, files[p]).Hit?)
    requires forall i :: 0 <= i < p ==> Resolve(c, files[i]).Hit?
    ensures FirstProblem(c, files) == p
  {
  }

  function ReplyTo(c: Cache, r: Request): Reply
    requires WellFormed(c)
  {
    if !Asks(c, r) then Database
    else if r.files == None || r.files.value == [] then Dropped
    else
      var files := r.files.value;
      var p := FirstProblem(c, files);
      if p < |files| then (if Resolve(c, files[p]) == Malformed then Dropped else Database)
      else if Collected(c, files) == [] then Database
      else FromCache(Collected(c, files))
  }

  /** All or nothing: the cache answers exactly when it is asked for a list, not empty, of which every
      file is found; and then with all of them. */
  lemma AllOrNothing(c: Cache, r: Request)
    requires WellFormed(c)
    ensures ReplyTo(c, r).FromCache? <==>
      && Asks(c, r) && r.files.Some?
      && (forall i :: 0 <= i < |r.files.value| ==> Resolve(c, r.files.value[i]).Hit?)
      && (exists i :: 0 <= i < |r.files.value| && |r.files.value[i].filename| <= MAX_FILENAME_LENGTH)
    ensures ReplyTo(c, r).FromCache? ==> ReplyTo(c, r).files == Collected(c, r.files.value)
  {
    if r.files.Some? && forall i :: 0 <= i < |r.files.value| ==> Resolve(c, r.files.value[i]).Hit? {
      var files := r.files.value;
      CollectedMeaning(c, files);
      FirstProblemIs(c, files, |files|);
      if i :| 0 <= i < |files| && |files[i].filename| <= MAX_FILENAME_LENGTH {
        var k := LastWithName(files, i);
        assert LastOf(files, k);
      }
      if Collected(c, files) != [] {
        var x := Collected(c, files)[0];
        assert x in Collected(c, files);
        var i :| 0 <= i < |files| && Resolve(c, files[i]) == Hit(x);
        ResolveName(c, files[i]);
      }
    }
  }

  lemma LastWithName(files: seq<Wanted>, i: nat) returns (k: nat)
    requires i < |files|
    ensures LastOf(files, k) && files[k].filename == files[i].filename
    decreases |files| - i
  {
    if j :| i < j < |files| && files[j].filename == files[i].filename {
      k := LastWithName(files, j);
    } else {
      k := i;
    }
  }

  /** The first problem decides between dropping a request and asking the database. */
  lemma FirstProblemDecides(c: Cache, r: Request, p: nat)
    requires WellFormed(c) && Asks(c, r) && r.files.Some? && p < |r.files.value|
    requires forall i :: 0 <= i < p ==> Resolve(c, r.files.value[i]).Hit?
    ensures Resolve(c, r.files.value[p]) == Malformed ==> ReplyTo(c, r) == Dropped
    ensures Resolve(c, r.files.value[p]) == Miss ==> ReplyTo(c, r) == Database
  {
    if !Resolve(c, r.files.value[p]).Hit? {
      FirstProblemIs(c, r.files.value, p);
    }
  }

  // ---------------------------------------------------------------- the reply in terms of the cache's files

  /** j is the first file of that name. */
  ghost predicate FirstNamed(files: seq<CacheFile>, name: string, j: int) {
    && 0 <= j < |files| && files[j].entry.filename == name
    && forall k :: 0 <= k < j ==> files[k].entry.filename != name
  }

  /** A file with a hash of four bytes is in the cache if the first patched file of its name begins with the
      hash; one without a hash if there is an added file of its name. */
  ghost predicate InCache(c: Cache, w: Wanted) {
    match w.data
    case Some(hash) => |hash| == 4 && exists j :: FirstNamed(c.patched, w.filename, j) && HasHash(c.patched[j], hash)
    case None => exists j :: FirstNamed(c.added, w.filename, j)
  }

  ghost predicate HasHash(f: CacheFile, hash: seq<Byte>) {
    |f.data| >= 4 && |hash| == 4 && forall b :: 0 <= b < 4 ==> f.data[b] == hash[b]
  }

  /** e has the lengths of the file that the cache has first under the name asked for. */
  ghost predicate SentFor(c: Cache, w: Wanted, e: Entry) {
    && e.filename == w.filename
    && match w.data
       case Some(_) => exists j :: FirstNamed(c.patched, w.filename, j) && LengthsOf(c.patched, j, e)
       case None => exists j :: FirstNamed(c.added, w.filename, j) && LengthsOf(c.added, j, e)
  }

  lemma SentSame(c: Cache, w: Wanted, found: Entry, e: Entry)
    requires SentFor(c, w, found) && e.filename == found.filename && SameLengths(e, found)
    ensures SentFor(c, w, e)
  {
    match w.data
    case Some(_) =>
      var j :| FirstNamed(c.patched, w.filename, j) && LengthsOf(c.patched, j, found);
      assert LengthsOf(c.patched, j, e);
    case None =>
      var j :| FirstNamed(c.added, w.filename, j) && LengthsOf(c.added, j, found);
      assert LengthsOf(c.added, j, e);
  }

  ghost predicate LengthsOf(files: seq<CacheFile>, j: int, e: Entry) {
    && 0 <= j < |files|
    && e.dataLength == files[j].entry.dataLength && e.fileLength == files[j].entry.fileLength
  }

  lemma ResolveMeans(c: Cache, w: Wanted)
    requires WellFormed(c)
    ensures Resolve(c, w).Hit? <==> InCache(c, w)
    ensures Resolve(c, w).Hit? ==> SentFor(c, w, Resolve(c, w).entry)
    ensures Resolve(c, w) == Malformed <==> w.data.Some? && |w.data.value| != 4
  {
    var files := if w.data.Some? then c.patched else c.added;
    var j := Find(files, w.filename);
    assert j < |files| ==> FirstNamed(files, w.filename, j);
    if i :| FirstNamed(files, w.filename, i) {
      FindIs(files, w.filename, i);
    }
    if w.data.Some? && |w.data.value| == 4 && j < |files| {
      HashCompared(files[j], w.data.value);
    }
    if Resolve(c, w).Hit? {
      assert LengthsOf(files, j, Resolve(c, w).entry);
    }
  }

  lemma HashCompared(f: CacheFile, hash: seq<Byte>)
    requires |f.data| >= 4 && |hash| == 4
    ensures f.data[..4] == hash <==> HasHash(f, hash)
  {
    if HasHash(f, hash) {
      assert forall b :: 0 <= b < 4 ==> f.data[..4][b] == hash[b];
    }
  }

  /** The request is for the cache's application, and newer than the cache is. */
  ghost predicate Current(c: Cache, r: Request) {
    c.loaded && r.appName == c.appName && c.minTime != 0.0 && r.lastUpdateDate != 0.0 && c.minTime < r.lastUpdateDate
  }

  /** The cache answers exactly when a current request asks for files that are all in it, and for one of at
      least whose name is not too long. */
  lemma AnsweredExactly(c: Cache, r: Request)
    requires WellFormed(c)
    ensures ReplyTo(c, r).FromCache? <==>
      && Current(c, r) && r.files.Some?
      && (forall i :: 0 <= i < |r.files.value| ==> InCache(c, r.files.value[i]))
      && (exists i :: 0 <= i < |r.files.value| && |r.files.value[i].filename| <= 512)
  {
    AllOrNothing(c, r);
    if r.files.Some? {
      forall i | 0 <= i < |r.files.value|
        ensures Resolve(c, r.files.value[i]).Hit? <==> InCache(c, r.files.value[i])
      {
        ResolveMeans(c, r.files.value[i]);
      }
    }
  }

  /** A request is dropped exactly when it is current and its list cannot be read or is empty, or a hash that
      is not of four bytes comes before any file that is not in the cache. */
  lemma DroppedExactly(c: Cache, r: Request)
    requires WellFormed(c)
    ensures ReplyTo(c, r) == Dropped <==>
      && Current(c, r)
      && (r.files == None || r.files.value == []
          || exists p :: 0 <= p < |r.files.value|
               && r.files.value[p].data.Some? && |r.files.value[p].data.value| != 4
               && forall i :: 0 <= i < p ==> InCache(c, r.files.value[i]))
  {
    if r.files.Some? {
      var files := r.files.value;
      forall i | 0 <= i < |files|
        ensures Resolve(c, files[i]).Hit? <==> InCache(c, files[i])
        ensures Resolve(c, files[i]) == Malformed <==> files[i].data.Some? && |files[i].data.value| != 4
      {
        ResolveMeans(c, files[i]);
      }
      if p :| 0 <= p < |files| && files[p].data.Some? && |files[p].data.value| != 4
              && forall i :: 0 <= i < p ==> InCache(c, files[i]) {
        FirstProblemIs(c, files, p);
      }
    }
  }

  /** What is sent has each name once, and only names asked for; and for the last request of a name that is
      not too long it has the lengths of the cache's first file of that name. */
  lemma SentExactly(c: Cache, r: Request)
    requires WellFormed(c) && ReplyTo(c, r).FromCache?
    ensures var sent, files := ReplyTo(c, r).files, r.files.value;
      && (forall i, j :: 0 <= i < j < |sent| ==> sent[i].filename != sent[j].filename)
      && (forall e :: e in sent ==> exists i :: 0 <= i < |files| && files[i].filename == e.filename)
      && (forall i ::
            (0 <= i < |files| && |files[i].filename| <= 512
             && (forall k :: i < k < |files| ==> files[k].filename != files[i].filename)) ==>
            exists e :: e in sent && SentFor(c, files[i], e))
  {
    AllOrNothing(c, r);
    var sent, files := ReplyTo(c, r).files, r.files.value;
    CollectedMeaning(c, files);
    forall e | e in sent
      ensures exists i :: 0 <= i < |files| && files[i].filename == e.filename
    {
      var i :| 0 <= i < |files| && Resolve(c, files[i]) == Hit(e);
      ResolveName(c, files[i]);
    }
    forall i | 0 <= i < |files| && |files[i].filename| <= 512
               && (forall k :: i < k < |files| ==> files[k].filename != files[i].filename)
      ensures exists e :: e in sent && SentFor(c, files[i], e)
    {
      assert LastOf(files, i);
      var e := LastIsSent(c, files, i);
    }
  }

  lemma LastIsSent(c: Cache, files: seq<Wanted>, i: nat) returns (e: Entry)
    requires WellFormed(c) && forall i :: 0 <= i < |files| ==> Resolve(c, files[i]).Hit?
    requires LastOf(files, i) && |files[i].filename| <= MAX_FILENAME_LENGTH && Meant(c, files, Collected(c, files))
    ensures e in Collected(c, files) && SentFor(c, files[i], e)
  {
    var found := Resolve(c, files[i]).entry;
    ResolveMeans(c, files[i]);
    assert Carries(Collected(c, files), found);
    e :| e in Collected(c, files) && e.filename == found.filename && SameLengths(e, found);
    SentSame(c, files[i], found, e);
  }

  // ---------------------------------------------------------------- the loops

  /** The lookup of one file, with the loops over the cache: None for a hash of the wrong length, and
      otherwise whether the file failed and the list with it. */
  method LookUp(c: Cache, w: Wanted, list: seq<Entry>) returns (r: Option<seq<Entry>>, failed: bool)
    requires WellFormed(c)
    ensures match Resolve(c, w)
            case Malformed => r == None
            case Miss => r == Some(list) && failed
            case Hit(e) => r == Some(Added(list, e)) && !failed
  {
    failed := false;
    var patchList := list;
    var j := 0;
    match w.data {
      case Some(userHash) =>
        if |userHash| != HASH_LENGTH {
          return None, failed;
        }
        while j < |c.patched|
          invariant j <= Find(c.patched, w.filename) && !failed && patchList == list
        {
          if c.patched[j].entry.filename == w.filename {
            FindIs(c.patched, w.filename, j);
            if c.patched[j].data[..HASH_LENGTH] == userHash {
              patchList := AddFile(patchList, c.patched[j].entry);
            } else {
              failed := true;
            }
            break;
          }
          j := j + 1;
        }
        if j == |c.patched| {
          failed := true;
        }
      case None =>
        while j < |c.added|
          invariant j <= Find(c.added, w.filename) && patchList == list
        {
          if c.added[j].entry.filename == w.filename {
            FindIs(c.added, w.filename, j);
            patchList := AddFile(patchList, c.added[j].entry);
            break;
          }
          j := j + 1;
        }
        if j == |c.added| {
          failed := true;
        }
    }
    return Some(patchList), failed;
  }

  /** The part of OnGetPatch that asks the cache. */
  method OnGetPatch(c: Cache, r: Request) returns (reply: Reply)
    requires WellFormed(c)
    ensures reply == ReplyTo(c, r)
  {
    if !(r.appName == c.appName && r.lastUpdateDate != 0.0 && c.loaded && c.minTime != 0.0
         && r.lastUpdateDate > c.minTime)
    {
      return Database;
    }
    if r.files == None {
      return Dropped;
    }
    var clientList := r.files.value;
    if |clientList| == 0 {
      return Dropped;
    }
    var patchList: seq<Entry> := [];
    var i := 0;
    while i < |clientList|
      invariant i <= |clientList|
      invariant forall k :: 0 <= k < i ==> Resolve(c, clientList[k]).Hit?
      invariant patchList == Collected(c, clientList[..i])
    {
      assert clientList[..i + 1][..i] == clientList[..i];
      var list, failed := LookUp(c, clientList[i], patchList);
      if list == None {
        FirstProblemIs(c, clientList, i);
        return Dropped;
      }
      if failed {
        FirstProblemIs(c, clientList, i);
        patchList := [];
        return Database;
      }
      patchList := list.value;
      i := i + 1;
    }
    FirstProblemIs(c, clientList, i);
    assert clientList[..i] == clientList;
    if |patchList| > 0 {
      return FromCache(patchList);
    }
    return Database;
  }
}
