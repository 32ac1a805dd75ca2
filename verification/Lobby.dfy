/** The lobby's table of users that are logged in, ordered by name, under logins, logoffs and closed
    connections. */
module Lobby {
  import opened Lexicographic
  import opened Lists
  import opened Options
  import opened OrderedList

  /** The characters of a string up to its terminator. */
  type Name = seq<int>
  type Address = nat
  type Guid = nat

  datatype User = User(name: Name, addresses: seq<Address>, guids: seq<Guid>, id: nat, multipleLogins: bool)

  // ---------------------------------------------------------------- order

  /** The sign of strcmp. */
  function StrCmp(s: Name, t: Name): int {
    if s == [] then (if t == [] then 0 else -1)
    else if t == [] then 1
    else if s[0] < t[0] then -1
    else if s[0] > t[0] then 1
    else StrCmp(s[1..], t[1..])
  }

  lemma {:induction false} StrCmpIsOrder(s: Name, t: Name)
    ensures StrCmp(s, t) < 0 <==> Less(s, t)
    ensures StrCmp(s, t) == 0 <==> s == t
    ensures StrCmp(s, t) > 0 <==> Less(t, s)
  {
    if s == t {
      StrCmpSame(s);
      Irreflexive(s);
    } else {
      StrCmpDiffers(s, t);
      Total(s, t);
      if Less(s, t) {
        Asymmetric(s, t);
      } else {
        Asymmetric(t, s);
      }
    }
  }

  lemma {:induction false} StrCmpSame(s: Name)
    ensures StrCmp(s, s) == 0
  {
    if s != [] {
      StrCmpSame(s[1..]);
    }
  }

  lemma {:induction false} StrCmpDiffers(s: Name, t: Name)
    requires s != t
    ensures StrCmp(s, t) != 0
    ensures if StrCmp(s, t) < 0 then Less(s, t) else Less(t, s)
  {
    if s == [] {
      assert DiffersAt(s, t, 0);
    } else if t == [] {
      assert DiffersAt(t, s, 0);
    } else if s[0] < t[0] {
      assert DiffersAt(s, t, 0);
    } else if s[0] > t[0] {
      assert DiffersAt(t, s, 0);
    } else {
      assert s == [s[0]] + s[1..] && t == [t[0]] + t[1..];
      StrCmpDiffers(s[1..], t[1..]);
      if StrCmp(s, t) < 0 {
        Prepend([s[0]], s[1..], t[1..]);
      } else {
        Prepend([s[0]], t[1..], s[1..]);
      }
    }
  }

  /** UserCompByUsername. */
  function ByName(key: Name, u: User): int {
    StrCmp(key, u.name)
  }

  ghost predicate Sorted(users: seq<User>) {
    forall i, j :: 0 <= i < j < |users| ==> Less(users[i].name, users[j].name)
  }

  lemma SortedConsistent(key: Name, users: seq<User>)
    requires Sorted(users)
    ensures Consistent(ByName, key, users)
  {
    forall i, j | 0 <= i < j < |users|
      ensures Descends(ByName(key, users[i]), ByName(key, users[j]))
    {
      StrCmpIsOrder(key, users[i].name);
      StrCmpIsOrder(key, users[j].name);
      if Less(key, users[i].name) || key == users[i].name {
        if key != users[i].name {
          Transitive(key, users[i].name, users[j].name);
        }
      }
    }
  }

  /** The binary search finds a name exactly when it is in the table, and otherwise the place that
      keeps the table in order. */
  lemma PlaceMeaning(key: Name, users: seq<User>)
    requires Sorted(users)
    ensures var p := Place(ByName, key, users);
      && (Has(ByName, key, users) <==> exists i :: 0 <= i < |users| && users[i].name == key)
      && (Has(ByName, key, users) ==> users[p].name == key)
      && (forall i :: 0 <= i < p ==> Less(users[i].name, key))
      && (!Has(ByName, key, users) ==> forall i :: p <= i < |users| ==> Less(key, users[i].name))
  {
    SortedConsistent(key, users);
    HasIffEqual(ByName, key, users);
    var p := Place(ByName, key, users);
    forall i | 0 <= i < |users|
      ensures ByName(key, users[i]) < 0 <==> Less(key, users[i].name)
      ensures ByName(key, users[i]) == 0 <==> key == users[i].name
      ensures ByName(key, users[i]) > 0 <==> Less(users[i].name, key)
    {
      StrCmpIsOrder(key, users[i].name);
    }
    if !Has(ByName, key, users) {
      forall i | p <= i < |users|
        ensures Less(key, users[i].name)
      {
        assert p < i ==> Descends(ByName(key, users[p]), ByName(key, users[i]));
      }
    }
  }

  // ---------------------------------------------------------------- the table

  ghost predicate NoRepeats<T>(s: seq<T>) {
    forall i, j :: 0 <= i < j < |s| ==> s[i] != s[j]
  }

  /** Everyone who is listed can be reached, in a way that is listed once. */
  ghost predicate Reachable(u: User) {
    u.addresses != [] && NoRepeats(u.addresses)
  }

  ghost predicate Valid(users: seq<User>) {
    Sorted(users) && forall u :: u in users ==> Reachable(u)
  }

  lemma SameName(users: seq<User>, i: nat, j: nat)
    requires Sorted(users) && i < |users| && j < |users| && users[i].name == users[j].name
    ensures i == j
  {
    Irreflexive(users[i].name);
  }

  lemma RemovedSorted(users: seq<User>, i: nat)
    requires Sorted(users) && i < |users|
    ensures Sorted(RemovedAt(users, i))
    ensures forall x :: x in RemovedAt(users, i) ==> x.name != users[i].name
  {
    var r := RemovedAt(users, i);
    assert forall j :: 0 <= j < |r| ==> r[j] == users[if j < i then j else j + 1];
    forall j | 0 <= j < |r|
      ensures r[j].name != users[i].name
    {
      if r[j].name == users[i].name {
        SameName(users, i, if j < i then j else j + 1);
      }
    }
  }

  lemma ReplacedSorted(users: seq<User>, i: nat, u: User)
    requires Sorted(users) && i < |users| && u.name == users[i].name
    ensures Sorted(users[i := u])
  {
  }

  lemma InsertedSorted(users: seq<User>, p: nat, u: User)
    requires Sorted(users) && p <= |users|
    requires forall i :: 0 <= i < p ==> Less(users[i].name, u.name)
    requires forall i :: p <= i < |users| ==> Less(u.name, users[i].name)
    ensures Sorted(InsertedAt(users, p, u))
  {
    var r := InsertedAt(users, p, u);
    forall i, j | 0 <= i < j < |r|
      ensures Less(r[i].name, r[j].name)
    {
      assert r[i] == if i < p then users[i] else if i == p then u else users[i - 1];
      assert r[j] == if j < p then users[j] else if j == p then u else users[j - 1];
    }
  }

  lemma PlacedSorted(users: seq<User>, u: User)
    requires Sorted(users) && !Has(ByName, u.name, users)
    ensures Sorted(InsertedAt(users, Place(ByName, u.name, users), u))
  {
    PlaceMeaning(u.name, users);
    InsertedSorted(users, Place(ByName, u.name, users), u);
  }

  // ---------------------------------------------------------------- lookups

  /** The first user who has the address, or the length. */
  function UserByAddress(users: seq<User>, a: Address): (i: nat)
    ensures i <= |users| && (i < |users| ==> a in users[i].addresses)
    ensures forall j :: 0 <= j < i ==> a !in users[j].addresses
  {
    if users == [] || a in users[0].addresses then 0 else 1 + UserByAddress(users[1..], a)
  }

  /** The first user who has the GUID, or the length. */
  function UserByGuid(users: seq<User>, g: Guid): (i: nat)
    ensures i <= |users| && (i < |users| ==> g in users[i].guids)
    ensures forall j :: 0 <= j < i ==> g !in users[j].guids
  {
    if users == [] || g in users[0].guids then 0 else 1 + UserByGuid(users[1..], g)
  }

  lemma ByAddressIs(users: seq<User>, a: Address, p: nat)
    requires p < |users| && a in users[p].addresses && forall j :: 0 <= j < p ==> a !in users[j].addresses
    ensures UserByAddress(users, a) == p
  {
  }

  lemma IndexIs(s: seq<Address>, a: Address, i: nat)
    requires i < |s| && s[i] == a && forall j :: 0 <= j < i ==> s[j] != a
    ensures IndexOf(s, a) == i
  {
  }

  lemma ByGuidIs(users: seq<User>, g: Guid, p: nat)
    requires p < |users| && g in users[p].guids && forall j :: 0 <= j < p ==> g !in users[j].guids
    ensures UserByGuid(users, g) == p
  {
  }

  lemma ByAddressIsNone(users: seq<User>, a: Address)
    requires forall x :: x in users ==> a !in x.addresses
    ensures UserByAddress(users, a) == |users|
  {
    forall i | 0 <= i < |users|
      ensures a !in users[i].addresses
    {
      assert users[i] in users;
    }
  }

  lemma ByGuidIsNone(users: seq<User>, g: Guid)
    requires forall x :: x in users ==> g !in x.guids
    ensures UserByGuid(users, g) == |users|
  {
    forall i | 0 <= i < |users|
      ensures g !in users[i].guids
    {
      assert users[i] in users;
    }
  }

  method GetUserIndexBySystemAddress(users: seq<User>, a: Address) returns (index: nat)
    ensures index == UserByAddress(users, a)
  {
    index := 0;
    while index < |users|
      invariant index <= UserByAddress(users, a)
    {
      var i := 0;
      while i < |users[index].addresses|
        invariant i <= IndexOf(users[index].addresses, a)
      {
        if users[index].addresses[i] == a {
          return;
        }
        i := i + 1;
      }
      index := index + 1;
    }
  }

  method GetUserIndexByGUID(users: seq<User>, g: Guid) returns (index: nat)
    ensures index == UserByGuid(users, g)
  {
    index := 0;
    while index < |users|
      invariant index <= UserByGuid(users, g)
    {
      var i := 0;
      while i < |users[index].guids|
        invariant i <= IndexOf(users[index].guids, g)
      {
        if users[index].guids[i] == g {
          return;
        }
        i := i + 1;
      }
      index := index + 1;
    }
  }

  // ---------------------------------------------------------------- steps

  /** The user that a login under a new name pushes out: who has its GUID, or else its address. */
  function Displaced(users: seq<User>, u: User): nat
    requires u.addresses != [] && u.guids != []
  {
    if UserByGuid(users, u.guids[0]) < |users| then UserByGuid(users, u.guids[0])
    else UserByAddress(users, u.addresses[0])
  }

  function AddedConnection(user: User, u: User): User
    requires u.addresses != [] && u.guids != []
  {
    if u.addresses[0] in user.addresses then user
    else user.(addresses := user.addresses + [u.addresses[0]], guids := user.guids + [u.guids[0]])
  }

  function AfterLogin(users: seq<User>, u: User): seq<User>
    requires u.addresses != [] && u.guids != []
  {
    var p := Place(ByName, u.name, users);
    if Has(ByName, u.name, users) then
      if users[p].multipleLogins then users[p := AddedConnection(users[p], u)]
      else InsertedAt(RemovedAt(users, p), p, u)
    else
      var d := Displaced(users, u);
      if d == |users| then InsertedAt(users, p, u)
      else if users[d].multipleLogins then users
      else InsertedAt(RemovedAt(users, d), Place(ByName, u.name, RemovedAt(users, d)), u)
  }

  function AfterLogoff(users: seq<User>, name: Name): seq<User> {
    if Has(ByName, name, users) then RemovedAt(users, Place(ByName, name, users)) else users
  }

  /** The address goes from the first user who has it; a user without addresses goes too. */
  function AfterClosed(users: seq<User>, a: Address): seq<User> {
    var index := UserByAddress(users, a);
    if index == |users| then users
    else
      var u := users[index];
      var left := RemovedFast(u.addresses, IndexOf(u.addresses, a));
      if left == [] then RemovedAt(users, index) else users[index := u.(addresses := left)]
  }

  lemma RemovedFastNoRepeats<T>(s: seq<T>, i: nat)
    requires NoRepeats(s) && i < |s|
    ensures NoRepeats(RemovedFast(s, i))
  {
  }

  lemma LoginSorted(users: seq<User>, u: User)
    requires Sorted(users) && u.addresses != [] && u.guids != []
    ensures Sorted(AfterLogin(users, u))
  {
    PlaceMeaning(u.name, users);
    var p := Place(ByName, u.name, users);
    if Has(ByName, u.name, users) {
      if users[p].multipleLogins {
        ReplacedSorted(users, p, AddedConnection(users[p], u));
      } else {
        ReplacedAt(users, p, u);
        ReplacedSorted(users, p, u);
      }
    } else {
      var d := Displaced(users, u);
      if d == |users| {
        PlacedSorted(users, u);
      } else if !users[d].multipleLogins {
        RemovedSorted(users, d);
        StillAbsent(users, d, u.name);
        PlacedSorted(RemovedAt(users, d), u);
      }
    }
  }

  lemma ReplacedAt(users: seq<User>, p: nat, u: User)
    requires p < |users|
    ensures InsertedAt(RemovedAt(users, p), p, u) == users[p := u]
  {
  }

  lemma InsertedReachable(users: seq<User>, p: nat, u: User, x: User)
    requires p <= |users| && Reachable(u) && (forall y :: y in users ==> Reachable(y)) && x in InsertedAt(users, p, u)
    ensures Reachable(x)
  {
    InsertedAtMembers(users, p, u);
  }

  lemma UpdatedReachable(users: seq<User>, p: nat, u: User, x: User)
    requires p < |users| && Reachable(u) && (forall y :: y in users ==> Reachable(y)) && x in users[p := u]
    ensures Reachable(x)
  {
  }

  lemma AddedReachable(user: User, u: User)
    requires Reachable(user) && Reachable(u) && u.guids != []
    ensures Reachable(AddedConnection(user, u))
  {
  }

  lemma LoginReachable(users: seq<User>, u: User, x: User)
    requires Valid(users) && Reachable(u) && u.guids != [] && x in AfterLogin(users, u)
    ensures Reachable(x)
  {
    var p := Place(ByName, u.name, users);
    if Has(ByName, u.name, users) {
      assert users[p] in users;
      if users[p].multipleLogins {
        AddedReachable(users[p], u);
        UpdatedReachable(users, p, AddedConnection(users[p], u), x);
      } else {
        ReplacedAt(users, p, u);
        UpdatedReachable(users, p, u, x);
      }
    } else {
      var d := Displaced(users, u);
      if d == |users| {
        InsertedReachable(users, p, u, x);
      } else if !users[d].multipleLogins {
        RemovedAtMembers(users, d);
        InsertedReachable(RemovedAt(users, d), Place(ByName, u.name, RemovedAt(users, d)), u, x);
      }
    }
  }

  lemma LoginValid(users: seq<User>, u: User)
    requires Valid(users) && Reachable(u) && u.guids != []
    ensures Valid(AfterLogin(users, u))
  {
    LoginSorted(users, u);
    forall x | x in AfterLogin(users, u)
      ensures Reachable(x)
    {
      LoginReachable(users, u, x);
    }
  }

  lemma StillAbsent(users: seq<User>, d: nat, name: Name)
    requires Sorted(users) && d < |users| && !Has(ByName, name, users)
    ensures !Has(ByName, name, RemovedAt(users, d))
  {
    var r := RemovedAt(users, d);
    PlaceMeaning(name, users);
    RemovedSorted(users, d);
    RemovedAtMembers(users, d);
    PlaceMeaning(name, r);
    forall j | 0 <= j < |r|
      ensures r[j].name != name
    {
      assert r[j] in r;
    }
  }

  lemma ClosedSorted(users: seq<User>, a: Address)
    requires Sorted(users)
    ensures Sorted(AfterClosed(users, a))
  {
    var index := UserByAddress(users, a);
    if index < |users| {
      var u := users[index];
      var left := RemovedFast(u.addresses, IndexOf(u.addresses, a));
      if left == [] {
        RemovedSorted(users, index);
      } else {
        ReplacedSorted(users, index, u.(addresses := left));
      }
    }
  }

  lemma ClosedValid(users: seq<User>, a: Address)
    requires Valid(users)
    ensures Valid(AfterClosed(users, a))
  {
    ClosedSorted(users, a);
    var index := UserByAddress(users, a);
    if index < |users| {
      var u := users[index];
      assert u in users;
      RemovedFastNoRepeats(u.addresses, IndexOf(u.addresses, a));
      RemovedAtMembers(users, index);
    }
  }

  lemma LogoffSorted(users: seq<User>, name: Name)
    requires Sorted(users)
    ensures Sorted(AfterLogoff(users, name))
    ensures Valid(users) ==> Valid(AfterLogoff(users, name))
  {
    if Has(ByName, name, users) {
      RemovedSorted(users, Place(ByName, name, users));
      RemovedAtMembers(users, Place(ByName, name, users));
    }
  }

  // ---------------------------------------------------------------- what the table says

  /** The user that is logged in under a name. */
  function Listed(users: seq<User>, name: Name): Option<User> {
    if Has(ByName, name, users) then Some(users[Place(ByName, name, users)]) else None
  }

  lemma ListedMeaning(users: seq<User>, name: Name)
    requires Sorted(users)
    ensures forall x :: x in users && x.name == name <==> Listed(users, name) == Some(x)
  {
    PlaceMeaning(name, users);
    forall x | x in users && x.name == name
      ensures Listed(users, name) == Some(x)
    {
      var i :| 0 <= i < |users| && users[i] == x;
      var p := Place(ByName, name, users);
      SameName(users, i, p);
    }
  }

  lemma InsertedListed(users: seq<User>, u: User, name: Name)
    requires Sorted(users) && !Has(ByName, u.name, users)
    ensures Listed(InsertedAt(users, Place(ByName, u.name, users), u), name)
         == if name == u.name then Some(u) else Listed(users, name)
  {
    var p := Place(ByName, u.name, users);
    var r := InsertedAt(users, p, u);
    PlacedSorted(users, u);
    InsertedAtMembers(users, p, u);
    ListedMeaning(users, name);
    ListedMeaning(r, name);
    assert name == u.name ==> u in r;
    assert Listed(r, name).Some? ==> Listed(r, name).value in r;
  }

  lemma RemovedListed(users: seq<User>, d: nat, name: Name)
    requires Sorted(users) && d < |users|
    ensures Listed(RemovedAt(users, d), name) == if name == users[d].name then None else Listed(users, name)
  {
    var r := RemovedAt(users, d);
    RemovedSorted(users, d);
    RemovedAtMembers(users, d);
    ListedMeaning(users, name);
    ListedMeaning(r, name);
    assert Listed(r, name).Some? ==> Listed(r, name).value in r;
  }

  lemma ReplacedListed(users: seq<User>, i: nat, u: User, name: Name)
    requires Sorted(users) && i < |users| && u.name == users[i].name
    ensures Listed(users[i := u], name) == if name == u.name then Some(u) else Listed(users, name)
  {
    var r := users[i := u];
    ReplacedSorted(users, i, u);
    ListedMeaning(users, name);
    ListedMeaning(r, name);
    assert r[i] == u;
    forall x | x in r
      ensures x == u || x in users
    {
    }
    forall j | 0 <= j < |users| && j != i
      ensures users[j] in r
    {
      assert r[j] == users[j];
    }
  }

  /** A login puts its user under its name, or adds its connection there when several logins are
      allowed. Under a new name it pushes out at most one user, who had its GUID or else its address;
      when that user allows several logins the new one is refused instead. Nobody else is touched. */
  lemma LoginMeaning(users: seq<User>, u: User, name: Name)
    requires Sorted(users) && u.addresses != [] && u.guids != []
    ensures
      var there, d := Listed(users, u.name), Displaced(users, u);
      Listed(AfterLogin(users, u), name) ==
        if there.Some? then
          if name != u.name then Listed(users, name)
          else if there.value.multipleLogins then Some(AddedConnection(there.value, u))
          else Some(u)
        else if d < |users| && users[d].multipleLogins then Listed(users, name)
        else if name == u.name then Some(u)
        else if d < |users| && name == users[d].name then None
        else Listed(users, name)
  {
    PlaceMeaning(u.name, users);
    if Has(ByName, u.name, users) {
      RepeatedLogin(users, u, name);
    } else {
      var d := Displaced(users, u);
      if d == |users| {
        InsertedListed(users, u, name);
      } else if !users[d].multipleLogins {
        RemovedSorted(users, d);
        StillAbsent(users, d, u.name);
        InsertedListed(RemovedAt(users, d), u, name);
        RemovedListed(users, d, name);
      }
    }
  }

  lemma RepeatedLogin(users: seq<User>, u: User, name: Name)
    requires Sorted(users) && u.addresses != [] && u.guids != [] && Has(ByName, u.name, users)
    ensures
      var there := users[Place(ByName, u.name, users)];
      Listed(AfterLogin(users, u), name) ==
        if name != u.name then Listed(users, name)
        else if there.multipleLogins then Some(AddedConnection(there, u))
        else Some(u)
  {
    PlaceMeaning(u.name, users);
    var p := Place(ByName, u.name, users);
    if users[p].multipleLogins {
      ReplacedListed(users, p, AddedConnection(users[p], u), name);
    } else {
      ReplacedAt(users, p, u);
      ReplacedListed(users, p, u, name);
    }
  }

  /** A login under a new name is refused, and then changes nothing, if and only if its GUID, or else its
      address, belongs to a user who allows several logins. */
  lemma NewNameRefused(users: seq<User>, u: User)
    requires Sorted(users) && u.addresses != [] && u.guids != [] && Listed(users, u.name) == None
    ensures var d := Displaced(users, u);
      && (Listed(AfterLogin(users, u), u.name) == None <==> d < |users| && users[d].multipleLogins)
      && (AfterLogin(users, u) == users <==> d < |users| && users[d].multipleLogins)
  {
    LoginMeaning(users, u, u.name);
  }

  /** No one has the address or the GUID. */
  ghost predicate Unheard(users: seq<User>, a: Address, g: Guid) {
    forall x :: x in users ==> a !in x.addresses && g !in x.guids
  }

  /** A login under a name that is listed, in the fields of its user: the new user takes the place of one
      who allows no second login; a user who allows several gets the address and the GUID behind its own,
      and a login from an address that the user already has leaves the whole table as it was. */
  lemma KnownNameLogin(users: seq<User>, u: User, i: nat)
    requires Sorted(users) && u.addresses != [] && u.guids != []
    requires i < |users| && users[i].name == u.name
    ensures var x := users[i];
      AfterLogin(users, u) ==
        if !x.multipleLogins then users[i := u]
        else if u.addresses[0] in x.addresses then users
        else users[i := User(x.name, x.addresses + [u.addresses[0]], x.guids + [u.guids[0]], x.id, true)]
  {
    PlaceMeaning(u.name, users);
    var p := Place(ByName, u.name, users);
    SameName(users, i, p);
    ReplacedAt(users, p, u);
  }

  /** A login under a name that is not listed, when no one has its GUID or its address: one more user. */
  lemma NewNameEntered(users: seq<User>, u: User)
    requires Sorted(users) && u.addresses != [] && u.guids != []
    requires forall x :: x in users ==> x.name != u.name
    requires Unheard(users, u.addresses[0], u.guids[0])
    ensures Sorted(AfterLogin(users, u)) && |AfterLogin(users, u)| == |users| + 1
    ensures forall x :: x in AfterLogin(users, u) <==> x in users || x == u
  {
    PlaceMeaning(u.name, users);
    LoginSorted(users, u);
    ByGuidIsNone(users, u.guids[0]);
    ByAddressIsNone(users, u.addresses[0]);
    InsertedAtMembers(users, Place(ByName, u.name, users), u);
  }

  /** The user who is in the way of a connection: the first who has its GUID, and only if no one has it the
      first who has its address. */
  ghost predicate InTheWay(users: seq<User>, a: Address, g: Guid, d: nat)
    requires d < |users|
  {
    if g in users[d].guids then forall j :: 0 <= j < d ==> g !in users[j].guids
    else
      && a in users[d].addresses
      && (forall x :: x in users ==> g !in x.guids)
      && (forall j :: 0 <= j < d ==> a !in users[j].addresses)
  }

  /** A login under a name that is not listed, when some user is in the way: refused by one who allows
      several logins, and otherwise in that user's stead. */
  lemma NewNameInTheWay(users: seq<User>, u: User, d: nat)
    requires Sorted(users) && u.addresses != [] && u.guids != []
    requires forall x :: x in users ==> x.name != u.name
    requires d < |users| && InTheWay(users, u.addresses[0], u.guids[0], d)
    ensures users[d].multipleLogins ==> AfterLogin(users, u) == users
    ensures !users[d].multipleLogins ==>
      && Sorted(AfterLogin(users, u)) && |AfterLogin(users, u)| == |users|
      && forall x :: x in AfterLogin(users, u) <==> (x in users && x != users[d]) || x == u
  {
    PlaceMeaning(u.name, users);
    LoginSorted(users, u);
    if u.guids[0] in users[d].guids {
      ByGuidIs(users, u.guids[0], d);
    } else {
      ByGuidIsNone(users, u.guids[0]);
      ByAddressIs(users, u.addresses[0], d);
    }
    if !users[d].multipleLogins {
      var r := RemovedAt(users, d);
      RemovedSorted(users, d);
      RemovedAtMembers(users, d);
      InsertedAtMembers(r, Place(ByName, u.name, r), u);
    }
  }

  /** A logoff takes its user away, and nobody else. */
  lemma LogoffMeaning(users: seq<User>, gone: Name, name: Name)
    requires Sorted(users)
    ensures Listed(AfterLogoff(users, gone), name) == if name == gone then None else Listed(users, name)
  {
    PlaceMeaning(gone, users);
    if Has(ByName, gone, users) {
      RemovedListed(users, Place(ByName, gone, users), name);
    }
  }

  /** What losing an address leaves of a user's addresses. */
  lemma LeftMeaning(addresses: seq<Address>, a: Address)
    requires NoRepeats(addresses) && a in addresses
    ensures var left := RemovedFast(addresses, IndexOf(addresses, a));
      && NoRepeats(left) && a !in left
      && multiset(left) == multiset(addresses) - multiset{a}
      && (left == [] <==> addresses == [a])
  {
    var i := IndexOf(addresses, a);
    var left := RemovedFast(addresses, i);
    RemovedFastElements(addresses, i);
    RemovedFastNoRepeats(addresses, i);
    OnlyOnce(addresses, a);
    assert a !in multiset(left);
    if left == [] {
      assert addresses == [a];
    }
  }

  /** A closed connection takes its address from the first user who has it, and takes away a user it
      was the only one of; GUIDs stay, and nobody else is touched. */
  lemma ClosedMeaning(users: seq<User>, a: Address, name: Name)
    requires Valid(users)
    ensures
      var index := UserByAddress(users, a);
      Listed(AfterClosed(users, a), name) ==
        if index == |users| || name != users[index].name then Listed(users, name)
        else if users[index].addresses == [a] then None
        else Some(users[index].(addresses := RemovedFast(users[index].addresses, IndexOf(users[index].addresses, a))))
  {
    var index := UserByAddress(users, a);
    if index < |users| {
      var u := users[index];
      assert u in users;
      LeftMeaning(u.addresses, a);
      var left := RemovedFast(u.addresses, IndexOf(u.addresses, a));
      if left == [] {
        RemovedListed(users, index, name);
      } else {
        ReplacedListed(users, index, u.(addresses := left), name);
      }
    }
  }

  /** A closed connection, in the fields of the first user who has its address: a user without another goes,
      and otherwise the last address moves into the place of the one that is lost. */
  lemma ClosedExactly(users: seq<User>, a: Address, i: nat, k: nat, left: seq<Address>)
    requires Valid(users) && i < |users| && (forall j :: 0 <= j < i ==> a !in users[j].addresses)
    requires k < |users[i].addresses| == |left| + 1 && users[i].addresses[k] == a
    requires forall j :: 0 <= j < |left| ==> left[j] == users[i].addresses[if j == k then |left| else j]
    ensures var x := users[i];
      AfterClosed(users, a) ==
        if left == [] then users[..i] + users[i + 1..]
        else users[i := User(x.name, left, x.guids, x.id, x.multipleLogins)]
  {
    ByAddressIs(users, a, i);
    assert users[i] in users;
    IndexIs(users[i].addresses, a, k);
    assert left == RemovedFast(users[i].addresses, k);
  }

  /** A closed connection that no user has changes nothing. */
  lemma ClosedUnheard(users: seq<User>, a: Address)
    requires forall x :: x in users ==> a !in x.addresses
    ensures AfterClosed(users, a) == users
  {
    ByAddressIsNone(users, a);
  }

  lemma OnlyOnce<T>(s: seq<T>, x: T)
    requires NoRepeats(s)
    ensures multiset(s)[x] <= 1
  {
    if s != [] {
      var before := s[..|s| - 1];
      assert s == before + [s[|s| - 1]];
      OnlyOnce(before, x);
      if s[|s| - 1] == x {
        assert x !in before;
        assert x !in multiset(before);
      }
    }
  }

  /** Closing the connection whose address comes last. */
  lemma LastAddressClosed(users: seq<User>, a: Address, p: nat, was: seq<Address>)
    requires p < |users| && users[p].addresses == was + [a] && was != [] && a !in was
    requires forall j :: 0 <= j < p ==> a !in users[j].addresses
    ensures AfterClosed(users, a) == users[p := users[p].(addresses := was)]
  {
    ByAddressIs(users, a, p);
    IndexIs(was + [a], a, |was|);
    assert RemovedFast(was + [a], |was|) == was;
  }

  /** A second connection that a user has added and closed again leaves its GUID behind: the addresses
      are as before, but the GUID is now the user's. */
  lemma ClosedConnectionKeepsGuid(users: seq<User>, u: User, p: nat)
    requires Valid(users) && u.addresses != [] && u.guids != [] && Has(ByName, u.name, users)
    requires p == Place(ByName, u.name, users) && users[p].multipleLogins
    requires forall x :: x in users ==> u.addresses[0] !in x.addresses
    ensures AfterClosed(AfterLogin(users, u), u.addresses[0])
        == users[p := users[p].(guids := users[p].guids + [u.guids[0]])]
  {
    assert users[p] in users;
    var x, added := users[p], AddedConnection(users[p], u);
    assert AfterLogin(users, u) == users[p := added];
    LastAddressClosed(users[p := added], u.addresses[0], p, x.addresses);
    assert added.(addresses := x.addresses) == x.(guids := x.guids + [u.guids[0]]);
  }

  /** A user who has got a GUID that no one further up has stands in the way of a login with it. */
  lemma GuidRefused(users: seq<User>, p: nat, x: User, later: User)
    requires Sorted(users) && p < |users| && x.name == users[p].name && x.multipleLogins
    requires later.addresses != [] && later.guids != [] && later.guids[0] in x.guids
    requires UserByGuid(users, later.guids[0]) >= p && Listed(users, later.name) == None
    ensures AfterLogin(users[p := x], later) == users[p := x]
    ensures Listed(users[p := x], later.name) == None
  {
    ReplacedSorted(users, p, x);
    ReplacedListed(users, p, x, later.name);
    ListedMeaning(users, later.name);
    assert users[p] in users;
    ByGuidIs(users[p := x], later.guids[0], p);
    NewNameRefused(users[p := x], later);
  }

  /** So a later login with that GUID under a new name is refused, though the connection is gone, unless
      a user further up has the GUID. */
  lemma StaleGuidRefused(users: seq<User>, u: User, p: nat, later: User)
    requires Valid(users) && u.addresses != [] && u.guids != [] && Has(ByName, u.name, users)
    requires p == Place(ByName, u.name, users) && users[p].multipleLogins
    requires forall x :: x in users ==> u.addresses[0] !in x.addresses
    requires later.addresses != [] && later.guids != [] && later.guids[0] == u.guids[0]
    requires UserByGuid(users, u.guids[0]) >= p && Listed(users, later.name) == None
    ensures var after := AfterClosed(AfterLogin(users, u), u.addresses[0]);
      && AfterLogin(after, later) == after
      && Listed(after, later.name) == None
  {
    ClosedConnectionKeepsGuid(users, u, p);
    GuidRefused(users, p, users[p].(guids := users[p].guids + [u.guids[0]]), later);
  }

  // ---------------------------------------------------------------- runs

  datatype Step = OnLogin(user: User) | OnLogoff(name: Name) | OnClosed(address: Address)

  /** Login commands carry an address and a GUID. */
  ghost predicate Commanded(step: Step) {
    step.OnLogin? ==> step.user.addresses != [] && step.user.guids != []
  }

  function Next(users: seq<User>, step: Step): seq<User>
    requires step.OnLogin? ==> step.user.addresses != [] && step.user.guids != []
  {
    match step
    case OnLogin(u) => AfterLogin(users, u)
    case OnLogoff(name) => AfterLogoff(users, name)
    case OnClosed(a) => AfterClosed(users, a)
  }

  ghost function Run(steps: seq<Step>): seq<User>
    requires forall i :: 0 <= i < |steps| ==> Commanded(steps[i])
  {
    if steps == [] then []
    else
      assert Commanded(steps[|steps| - 1]);
      Next(Run(steps[..|steps| - 1]), steps[|steps| - 1])
  }

  /** No login lists an address twice. */
  ghost predicate NoAddressTwice(steps: seq<Step>) {
    forall i :: 0 <= i < |steps| && steps[i].OnLogin? ==> NoRepeats(steps[i].user.addresses)
  }

  /** Over every run of logins, logoffs and closed connections the table stays in strict order of the
      names; and every user in it has an address, none of them twice, when no login lists one twice. */
  lemma {:induction false} EveryRunValid(steps: seq<Step>)
    requires forall i :: 0 <= i < |steps| ==> Commanded(steps[i])
    ensures Sorted(Run(steps))
    ensures NoAddressTwice(steps) ==> Valid(Run(steps))
    decreases |steps|
  {
    if steps != [] {
      var before, last := steps[..|steps| - 1], steps[|steps| - 1];
      EveryRunValid(before);
      assert Commanded(last);
      match last
      case OnLogin(u) =>
        LoginSorted(Run(before), u);
        if NoAddressTwice(steps) {
          assert NoRepeats(steps[|steps| - 1].user.addresses);
          LoginValid(Run(before), u);
        }
      case OnLogoff(name) => LogoffSorted(Run(before), name);
      case OnClosed(a) =>
        ClosedSorted(Run(before), a);
        if NoAddressTwice(steps) {
          ClosedValid(Run(before), a);
        }
    }
  }

  lemma RunOneMore(steps: seq<Step>, step: Step)
    requires (forall i :: 0 <= i < |steps| ==> Commanded(steps[i])) && Commanded(step)
    ensures Run(steps + [step]) == Next(Run(steps), step)
  {
    assert (steps + [step])[..|steps|] == steps;
  }

  const X_FIRST := User([120], [1], [11], 0, true)
  const X_SECOND := User([120], [2], [22], 0, true)
  const X_LEFT := User([120], [1], [11, 22], 0, true)
  const Y := User([121], [2], [22], 1, true)

  lemma FirstLogin()
    ensures AfterLogin([], X_FIRST) == [X_FIRST] && Valid([X_FIRST])
    ensures Place(ByName, X_SECOND.name, [X_FIRST]) == 0 && Has(ByName, X_SECOND.name, [X_FIRST])
  {
    StrCmpSame([120]);
    PlaceIs(ByName, X_SECOND.name, [X_FIRST], 0);
  }

  lemma SecondLoginClosed()
    ensures AfterClosed(AfterLogin([X_FIRST], X_SECOND), 2) == [X_LEFT]
  {
    FirstLogin();
    ClosedConnectionKeepsGuid([X_FIRST], X_SECOND, 0);
    assert [11] + [22] == [11, 22];
  }

  lemma LaterLogin()
    ensures AfterLogin([X_LEFT], Y) == [X_LEFT]
  {
    assert StrCmp(Y.name, X_LEFT.name) == 1;
    PlaceIs(ByName, Y.name, [X_LEFT], 1);
    ByGuidIs([X_LEFT], 22, 0);
  }

  /** A run from the empty table: x logs in twice, the second connection is closed, and y is refused with
      the GUID of that connection. */
  lemma StaleGuidRun()
    ensures
      var closed := [OnLogin(X_FIRST), OnLogin(X_SECOND), OnClosed(2)];
      Run(closed) == [X_LEFT] && Run(closed + [OnLogin(Y)]) == [X_LEFT]
  {
    var one, two := [OnLogin(X_FIRST)], [OnLogin(X_FIRST), OnLogin(X_SECOND)];
    var closed := [OnLogin(X_FIRST), OnLogin(X_SECOND), OnClosed(2)];
    FirstLogin();
    SecondLoginClosed();
    LaterLogin();
    RunOneMore([], OnLogin(X_FIRST));
    assert [] + one == one;
    RunOneMore(one, OnLogin(X_SECOND));
    assert one + [OnLogin(X_SECOND)] == two;
    RunOneMore(two, OnClosed(2));
    assert two + [OnClosed(2)] == closed;
    RunOneMore(closed, OnLogin(Y));
  }

  // ---------------------------------------------------------------- the server

  class Lobby2Server {
    var users: seq<User>

    constructor ()
      ensures users == []
    {
      users := [];
    }

    method OnLogin(u: User)
      requires Sorted(users) && u.addresses != [] && u.guids != []
      modifies `users
      ensures Sorted(users) && users == AfterLogin(old(users), u)
      ensures old(Valid(users)) && Reachable(u) ==> Valid(users)
    {
      LoginSorted(users, u);
      if Valid(users) && Reachable(u) {
        LoginValid(users, u);
      }
      SortedConsistent(u.name, users);
      var insertionIndex, objectExists := GetIndexFromKey(ByName, u.name, users);
      if objectExists {
        var user := users[insertionIndex];
        if !user.multipleLogins {
          users := RemovedAt(users, insertionIndex);
        } else {
          if u.addresses[0] !in user.addresses {
            user := user.(addresses := user.addresses + [u.addresses[0]], guids := user.guids + [u.guids[0]]);
          }
          users := users[insertionIndex := user];
          return;
        }
      } else {
        var idx2 := GetUserIndexByGUID(users, u.guids[0]);
        var idx3 := GetUserIndexBySystemAddress(users, u.addresses[0]);
        var idx := if idx2 != |users| then idx2 else idx3;
        if idx != |users| {
          if users[idx].multipleLogins {
            return;
          }
          RemovedSorted(users, idx);
          users := RemovedAt(users, idx);
          SortedConsistent(u.name, users);
          insertionIndex, objectExists := GetIndexFromKey(ByName, u.name, users);
        }
      }
      users := InsertedAt(users, insertionIndex, u);
    }

    method OnLogoff(name: Name)
      requires Sorted(users)
      modifies `users
      ensures Sorted(users) && users == AfterLogoff(old(users), name)
      ensures old(Valid(users)) ==> Valid(users)
    {
      LogoffSorted(users, name);
      SortedConsistent(name, users);
      var index, objectExists := GetIndexFromKey(ByName, name, users);
      if objectExists {
        users := RemovedAt(users, index);
      }
    }

    method OnClosedConnection(a: Address)
      requires Sorted(users)
      modifies `users
      ensures Sorted(users) && users == AfterClosed(old(users), a)
      ensures old(Valid(users)) ==> Valid(users)
    {
      ClosedSorted(users, a);
      if Valid(users) {
        ClosedValid(users, a);
      }
      var index := GetUserIndexBySystemAddress(users, a);
      if index != |users| {
        var user := users[index];
        var i := 0;
        while user.addresses[i] != a
          invariant i <= IndexOf(user.addresses, a)
          decreases |user.addresses| - i
        {
          i := i + 1;
        }
        user := user.(addresses := RemovedFast(user.addresses, i));
        if |user.addresses| == 0 {
          users := RemovedAt(users, index);
        } else {
          users := users[index := user];
        }
      }
    }
  }
}
