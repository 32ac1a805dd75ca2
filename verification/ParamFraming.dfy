/** How the parameters of a remote call are framed in a bit stream, and how the receiver takes them
    out again when it may not know the objects they name. */
module ParamFraming {
  import opened BitCodes
  import opened BitLists
  import opened BitStreams
  import opened Options
  import opened TagRing

  const TWO32 := 0x1_0000_0000
  const TWO64 := 0x1_0000_0000_0000_0000

  /** The stream operators of the parameter types. Writing depends on the cursor, because an operator
      may align; `item` tells an array element from a value on its own. */
  datatype Codec<!V> = Codec(enc: (V, bool, nat) -> seq<bool>, dec: (seq<bool>, bool, nat) -> Option<(V, nat)>)

  predicate TakesBack<V(==)>(k: Codec<V>, v: V, item: bool, c: nat, s: seq<bool>) {
    var end: nat := c + |k.enc(v, item, c)|;
    k.dec(s, item, c) == Some((v, end))
  }

  /** Reading takes back what writing put at the same cursor, all of it and nothing more. */
  ghost predicate Matches<V(!new)>(k: Codec<V>) {
    forall v, item, c, s :: Starts(s, c, k.enc(v, item, c)) ==> TakesBack(k, v, item, c, s)
  }

  datatype Kind = CallerKind | PlainKind | PointerKind | ObjectKind

  /** What the caller passes: a pointer to the caller itself, which is not sent; a value; a pointer to
      values; or a pointer to an object that has a network id. */
  datatype Arg<V> = Caller | Plain(v: V) | Pointer(p: Ptr, elems: seq<V>) | Object(p: Ptr, id: nat, state: V)

  /** What the called function is given. Unset is an object pointer that was never assigned. */
  datatype Got<V> = CallerPtr | Value(v: V) | Null | Elements(elems: seq<V>) | Reference(id: nat) | Unset

  function KindOf<V>(a: Arg<V>): Kind {
    match a
    case Caller => CallerKind
    case Plain(_) => PlainKind
    case Pointer(_, _) => PointerKind
    case Object(_, _, _) => ObjectKind
  }

  // ---------------------------------------------------------------- tags

  function TagOf(tags: map<Ptr, Info>, p: Ptr): Info {
    if p in tags then tags[p] else Info(1, false, false)
  }

  predicate TagOk(i: Info) {
    i.count < TWO32 && (!i.isArray ==> i.count == 1)
  }

  ghost predicate TagsOk(tags: map<Ptr, Info>) {
    forall p :: p in tags ==> TagOk(tags[p])
  }

  /** Whatever is tagged and cleared, a tag without a count says one. */
  lemma {:induction false} RunsKeepTagsOk(tags: map<Ptr, Info>, calls: seq<Call>)
    requires TagsOk(tags)
    requires forall c :: c in calls && c.Add? && c.m.Array? ==> c.m.count < TWO32
    ensures TagsOk(RunMap(tags, calls).0)
    decreases |calls|
  {
    if calls != [] {
      assert calls[0] in calls;
      assert forall c :: c in calls[1..] ==> c in calls;
      match calls[0]
      case Add(p, m) => RunsKeepTagsOk(Marked(tags, p, m), calls[1..]);
      case Clear(p) => RunsKeepTagsOk(tags - {p}, calls[1..]);
    }
  }

  /** The writer uses up the tag of the pointer it writes. */
  function TagsAfter<V>(a: Arg<V>, tags: map<Ptr, Info>): map<Ptr, Info> {
    if (a.Pointer? || a.Object?) && a.p != 0 then tags - {a.p} else tags
  }

  /** The pointer leads to as many values as its tag says; ids have 64 bits. */
  predicate Sendable<V>(a: Arg<V>, tags: map<Ptr, Info>) {
    match a
    case Pointer(p, elems) => p != 0 ==> TagOk(TagOf(tags, p)) && TagOf(tags, p).count <= |elems|
    case Object(p, id, _) => p != 0 ==> TagOk(TagOf(tags, p)) && id < TWO64
    case _ => true
  }

  // ---------------------------------------------------------------- the writer

  function CountBits(i: Info): seq<bool> {
    if i.isArray then Compressed(CountBytes(i.count), true) else []
  }

  /** The number of bits of a body, then the body. */
  function SizedBody<V>(k: Codec<V>, state: V, c: nat): seq<bool> {
    var body := k.enc(state, false, c + 32);
    Bits(|body| % TWO32, 32) + body
  }

  function CopyBits<V>(k: Codec<V>, id: nat, state: V, deref: bool, c: nat): seq<bool> {
    if deref then Bits(id, 64) + (Padded(c + 64) + SizedBody(k, state, c + 64 + Padding(c + 64)))
    else Bits(id, 64)
  }

  function CopyWriter<V>(k: Codec<V>, id: nat, state: V, deref: bool): nat -> seq<bool> {
    (c: nat) => CopyBits(k, id, state, deref, c)
  }

  function CopiesBits<V>(k: Codec<V>, id: nat, state: V, deref: bool, c: nat, n: nat): seq<bool> {
    Repeated(CopyWriter(k, id, state, deref), c, n)
  }

  function ItemWriter<V>(k: Codec<V>): Writer<V> {
    (_, v, c: nat) => k.enc(v, true, c)
  }

  function ItemsBits<V>(k: Codec<V>, elems: seq<V>, c: nat): seq<bool> {
    Written(ItemWriter(k), elems, c)
  }

  /** The values that a tagged pointer passes: no more than its tag says. */
  function Passed<V>(elems: seq<V>, i: Info): seq<V> {
    if i.count <= |elems| then elems[..i.count] else elems
  }

  function PointerBits<V>(k: Codec<V>, elems: seq<V>, i: Info, c: nat): seq<bool> {
    if i.isArray then CountBits(i) + ItemsBits(k, Passed(elems, i), c + |CountBits(i)|)
    else if elems == [] then []
    else k.enc(elems[0], false, c)
  }

  function ObjectBits<V>(k: Codec<V>, id: nat, state: V, i: Info, c: nat): seq<bool> {
    CountBits(i) + CopiesBits(k, id, state, i.deref, c + |CountBits(i)|, i.count)
  }

  /** What is written for one parameter at cursor c. */
  function ArgBits<V>(k: Codec<V>, a: Arg<V>, tags: map<Ptr, Info>, c: nat): seq<bool> {
    match a
    case Caller => []
    case Plain(v) => k.enc(v, false, c)
    case Pointer(p, elems) =>
      if p == 0 then [true]
      else var i := TagOf(tags, p); [false, i.isArray] + PointerBits(k, elems, i, c + 2)
    case Object(p, id, state) =>
      if p == 0 then [true]
      else var i := TagOf(tags, p); [false, i.deref, i.isArray] + ObjectBits(k, id, state, i, c + 3)
  }

  // ---------------------------------------------------------------- the reader

  function ReadCount(s: seq<bool>, c: nat, isArray: bool): Option<(nat, nat)> {
    if !isArray then Some((1, c))
    else match Decompressed(s, c, 4, true)
      case None => None
      case Some((b, next)) => Some((CountOf(b), next))
  }

  /** One id, and its object's body when it was sent: read into a known object, skipped for an
      unknown one. Gives the pointer, the cursor and the table of known objects. */
  function ReadCopy<V>(k: Codec<V>, s: seq<bool>, deref: bool, c: nat, known: map<nat, V>):
      Option<(Got<V>, nat, map<nat, V>)>
  {
    match ReadNumber(s, c, 64)
    case None => None
    case Some((id, c1)) =>
      var t := if id in known then Reference(id) else Null;
      if !deref then Some((t, c1, known))
      else match ReadNumber(s, c1 + Padding(c1), 32)
        case None => None
        case Some((bitsUsed, c2)) =>
          if id !in known then Some((t, c2 + bitsUsed, known))
          else match k.dec(s, false, c2)
            case None => None
            case Some((v, c3)) => Some((t, c3, known[id := v]))
  }

  function ReadCopies<V>(k: Codec<V>, s: seq<bool>, deref: bool, c: nat, known: map<nat, V>, n: nat):
      Option<(Got<V>, nat, map<nat, V>)>
  {
    if n == 0 then Some((Unset, c, known))
    else match ReadCopies(k, s, deref, c, known, n - 1)
      case None => None
      case Some((_, next, table)) => ReadCopy(k, s, deref, next, table)
  }

  function ReadItems<V>(k: Codec<V>, s: seq<bool>, c: nat, n: nat): Option<(seq<V>, nat)> {
    if n == 0 then Some(([], c))
    else match ReadItems(k, s, c, n - 1)
      case None => None
      case Some((items, next)) =>
        match k.dec(s, true, next)
        case None => None
        case Some((v, end)) => Some((items + [v], end))
  }

  function ReadPlain<V>(k: Codec<V>, s: seq<bool>, c: nat): Option<(V, nat)> {
    k.dec(s, false, c)
  }

  function ReadPointer<V>(k: Codec<V>, s: seq<bool>, c: nat): Option<(Got<V>, nat)> {
    match ReadBit(s, c)
    case None => None
    case Some((isNull, c1)) =>
      if isNull then Some((Null, c1))
      else match ReadBit(s, c1)
        case None => None
        case Some((isArray, c2)) =>
          match ReadCount(s, c2, isArray)
          case None => None
          case Some((count, c3)) =>
            if isArray then
              match ReadItems(k, s, c3, count)
              case None => None
              case Some((items, c4)) => Some((Elements(items), c4))
            else
              match ReadPlain(k, s, c3)
              case None => None
              case Some((v, c4)) => Some((Elements([v]), c4))
  }

  function ReadObject<V>(k: Codec<V>, s: seq<bool>, c: nat, known: map<nat, V>): Option<(Got<V>, nat, map<nat, V>)> {
    match ReadBit(s, c)
    case None => None
    case Some((isNull, c1)) =>
      if isNull then Some((Null, c1, known))
      else match ReadBit(s, c1)
        case None => None
        case Some((deref, c2)) =>
          match ReadBit(s, c2)
          case None => None
          case Some((isArray, c3)) =>
            match ReadCount(s, c3, isArray)
            case None => None
            case Some((count, c4)) => ReadCopies(k, s, deref, c4, known, count)
  }

  /** What is read for one parameter; None when the stream ends inside it. */
  function ReadArg<V>(k: Codec<V>, kind: Kind, s: seq<bool>, c: nat, known: map<nat, V>):
      Option<(Got<V>, nat, map<nat, V>)>
  {
    match kind
    case CallerKind => Some((CallerPtr, c, known))
    case PlainKind =>
      (match ReadPlain(k, s, c)
       case None => None
       case Some((v, next)) => Some((Value(v), next, known)))
    case PointerKind =>
      (match ReadPointer(k, s, c)
       case None => None
       case Some((g, next)) => Some((g, next, known)))
    case ObjectKind => ReadObject(k, s, c, known)
  }

  // ---------------------------------------------------------------- one parameter

  lemma {:induction false} Pow2Sum(m: nat, n: nat)
    ensures Pow2(m + n) == Pow2(m) * Pow2(n)
  {
    if m > 0 {
      Pow2Sum(m - 1, n);
      assert m + n - 1 == m - 1 + n;
    }
  }

  lemma Widths()
    ensures Pow2(32) == TWO32 && Pow2(64) == TWO64
  {
    Powers();
    Pow2Sum(8, 8);
    assert Pow2(16) == 256 * 256;
    Pow2Sum(16, 16);
    Pow2Sum(32, 32);
  }

  lemma LengthRead(s: seq<bool>, c: nat, n: nat)
    requires n < TWO32 && Starts(s, c, Bits(n % TWO32, 32))
    ensures ReadNumber(s, c, 32) == Some((n, c + 32))
  {
    Widths();
    assert n % TWO32 == n;
    ReadNumberBits(s, c, n, 32, c + 32);
  }

  /** A body that fits is read whole by those who know the object, and skipped whole by the others. */
  lemma SizedBodyRead<V(!new)>(k: Codec<V>, s: seq<bool>, state: V, c: nat, body: seq<bool>)
    requires Matches(k) && |s| < TWO32 && Starts(s, c, SizedBody(k, state, c))
    requires body == k.enc(state, false, c + 32)
    ensures ReadNumber(s, c, 32) == Some((|body|, c + 32))
    ensures k.dec(s, false, c + 32) == Some((state, c + 32 + |body|))
    ensures |SizedBody(k, state, c)| == 32 + |body|
  {
    StartsParts(s, c, SizedBody(k, state, c), Bits(|body| % TWO32, 32), body, c + 32);
    LengthRead(s, c, |body|);
    assert TakesBack(k, state, false, c + 32, s);
  }

  /** What reading a copy does to the table of known objects. */
  function Learned<V>(known: map<nat, V>, id: nat, state: V, deref: bool): map<nat, V> {
    if deref && id in known then known[id := state] else known
  }

  function Found<V>(known: map<nat, V>, id: nat): Got<V> {
    if id in known then Reference(id) else Null
  }

  /** What reading one copy gives when it ends at the given cursor. */
  function CopyResult<V>(known: map<nat, V>, id: nat, state: V, deref: bool, end: nat):
      Option<(Got<V>, nat, map<nat, V>)>
  {
    Some((Found(known, id), end, Learned(known, id, state, deref)))
  }

  /** The pieces of a copy that has a body. */
  lemma BodyRead<V(!new)>(k: Codec<V>, s: seq<bool>, id: nat, state: V, c: nat, c1: nat, c2: nat, bits: seq<bool>,
                          body: seq<bool>, end: nat)
    requires Matches(k) && |s| < TWO32 && bits == CopyBits(k, id, state, true, c)
    requires Starts(s, c, bits) && end == c + |bits|
    requires c1 == c + 64 && c2 == c1 + Padding(c1) && body == k.enc(state, false, c2 + 32)
    ensures Starts(s, c, Bits(id, 64))
    ensures ReadNumber(s, c2, 32) == Some((|body|, c2 + 32))
    ensures k.dec(s, false, c2 + 32) == Some((state, end)) && end == c2 + 32 + |body|
  {
    var pad, sized := Padded(c1), SizedBody(k, state, c2);
    StartsParts(s, c, bits, Bits(id, 64), pad + sized, c1);
    StartsParts(s, c1, pad + sized, pad, sized, c2);
    SizedBodyRead(k, s, state, c2, body);
  }

  lemma CopyRead<V(!new)>(k: Codec<V>, s: seq<bool>, id: nat, state: V, deref: bool, c: nat, known: map<nat, V>,
                          bits: seq<bool>, end: nat)
    requires Matches(k) && |s| < TWO32 && id < TWO64 && bits == CopyBits(k, id, state, deref, c)
    requires Starts(s, c, bits) && end == c + |bits|
    ensures ReadCopy(k, s, deref, c, known) == CopyResult(known, id, state, deref, end)
  {
    var c1 := c + 64;
    if deref {
      var c2 := c1 + Padding(c1);
      var body := k.enc(state, false, c2 + 32);
      BodyRead(k, s, id, state, c, c1, c2, bits, body, end);
      IdRead(s, id, c, c1);
      ReadCopyBody(k, s, id, state, c, c1, c2, known, |body|, end);
    } else {
      IdRead(s, id, c, c1);
    }
  }

  lemma IdRead(s: seq<bool>, id: nat, c: nat, c1: nat)
    requires id < TWO64 && Starts(s, c, Bits(id, 64)) && c1 == c + 64
    ensures ReadNumber(s, c, 64) == Some((id, c1))
  {
    Widths();
    ReadNumberBits(s, c, id, 64, c1);
  }

  lemma ReadCopyBody<V>(k: Codec<V>, s: seq<bool>, id: nat, state: V, c: nat, c1: nat, c2: nat, known: map<nat, V>,
                        n: nat, end: nat)
    requires ReadNumber(s, c, 64) == Some((id, c1)) && c2 == c1 + Padding(c1) && end == c2 + 32 + n
    requires ReadNumber(s, c2, 32) == Some((n, c2 + 32)) && k.dec(s, false, c2 + 32) == Some((state, end))
    ensures ReadCopy(k, s, true, c, known) == CopyResult(known, id, state, true, end)
  {
  }

  lemma LearnedTwice<V>(known: map<nat, V>, id: nat, state: V, deref: bool)
    ensures var once := Learned(known, id, state, deref);
      Found(once, id) == Found(known, id) && Learned(once, id, state, deref) == once
  {
  }

  /** What reading n copies gives when it ends at the given cursor. */
  function CopiesResult<V>(known: map<nat, V>, id: nat, state: V, deref: bool, n: nat, end: nat):
      Option<(Got<V>, nat, map<nat, V>)>
  {
    if n == 0 then Some((Unset, end, known)) else CopyResult(known, id, state, deref, end)
  }

  lemma CopiesFollow<V>(k: Codec<V>, s: seq<bool>, id: nat, state: V, deref: bool, c: nat, known: map<nat, V>, n: nat,
                        next: nat, table: map<nat, V>, end: nat)
    requires n > 0 && table == (if n == 1 then known else Learned(known, id, state, deref))
    requires ReadCopies(k, s, deref, c, known, n - 1) == CopiesResult(known, id, state, deref, n - 1, next)
    requires ReadCopy(k, s, deref, next, table) == CopyResult(table, id, state, deref, end)
    ensures ReadCopies(k, s, deref, c, known, n) == CopiesResult(known, id, state, deref, n, end)
  {
    LearnedTwice(known, id, state, deref);
  }

  lemma {:induction false} CopiesRead<V(!new)>(k: Codec<V>, s: seq<bool>, id: nat, state: V, deref: bool, c: nat,
                                               known: map<nat, V>, n: nat, end: nat)
    requires Matches(k) && |s| < TWO32 && id < TWO64 && Starts(s, c, CopiesBits(k, id, state, deref, c, n))
    requires end == c + |CopiesBits(k, id, state, deref, c, n)|
    ensures ReadCopies(k, s, deref, c, known, n) == CopiesResult(known, id, state, deref, n, end)
    decreases n
  {
    if n > 0 {
      var next := c + |CopiesBits(k, id, state, deref, c, n - 1)|;
      var last := CopyBits(k, id, state, deref, next);
      RepeatedParts(CopyWriter(k, id, state, deref), c, n, next, s, last);
      CopiesRead(k, s, id, state, deref, c, known, n - 1, next);
      var table := if n == 1 then known else Learned(known, id, state, deref);
      CopyRead(k, s, id, state, deref, next, table, last, end);
      CopiesFollow(k, s, id, state, deref, c, known, n, next, table, end);
    }
  }

  lemma ItemsFollow<V>(k: Codec<V>, s: seq<bool>, elems: seq<V>, before: seq<V>, last: V, c: nat, n: nat, next: nat,
                       end: nat)
    requires Split(elems, before, last) && n == |elems|
    requires ReadItems(k, s, c, n - 1) == Some((before, next)) && k.dec(s, true, next) == Some((last, end))
    ensures ReadItems(k, s, c, n) == Some((elems, end))
  {
    assert elems == before + [last];
  }

  lemma {:induction false} ItemsRead<V(!new)>(k: Codec<V>, s: seq<bool>, elems: seq<V>, c: nat, n: nat, end: nat)
    requires Matches(k) && n == |elems| && Starts(s, c, ItemsBits(k, elems, c)) && end == c + |ItemsBits(k, elems, c)|
    ensures ReadItems(k, s, c, n) == Some((elems, end))
    decreases n
  {
    if n > 0 {
      var before, last := elems[..n - 1], elems[n - 1];
      var next := c + |ItemsBits(k, before, c)|;
      var bits := k.enc(last, true, next);
      WrittenParts(ItemWriter(k), elems, before, last, c, next, s, bits);
      ItemsRead(k, s, before, c, n - 1, next);
      assert TakesBack(k, last, true, next, s);
      ItemsFollow(k, s, elems, before, last, c, n, next, end);
    }
  }

  lemma CountRead(s: seq<bool>, i: Info, c: nat, next: nat)
    requires TagOk(i) && next == c + |CountBits(i)| && Starts(s, c, CountBits(i))
    ensures ReadCount(s, c, i.isArray) == Some((i.count, next))
  {
    if i.isArray {
      CompressedRoundTrip(s, c, CountBytes(i.count), true, next);
      CountRoundTrip(i.count);
    }
  }

  lemma FlagsRead(s: seq<bool>, c: nat, whole: seq<bool>, flags: seq<bool>, rest: seq<bool>, next: nat)
    requires Starts(s, c, whole) && whole == flags + rest && next == c + |flags|
    ensures c + |flags| <= |s|
    ensures |flags| > 0 ==> s[c] == flags[0]
    ensures |flags| > 1 ==> s[c + 1] == flags[1]
    ensures |flags| > 2 ==> s[c + 2] == flags[2]
    ensures Starts(s, next, rest) && c + |whole| == next + |rest|
  {
    StartsParts(s, c, whole, flags, rest, next);
  }

  /** Behind the flags: the count and the elements. */
  lemma ArrayRest<V(!new)>(k: Codec<V>, s: seq<bool>, elems: seq<V>, i: Info, c: nat, c2: nat, items: seq<bool>,
                           whole: seq<bool>, end: nat)
    requires Matches(k) && TagOk(i) && i.count == |elems| && c2 == c + |CountBits(i)| && end == c + |whole|
    requires items == ItemsBits(k, elems, c2) && whole == CountBits(i) + items && Starts(s, c, whole)
    ensures ReadCount(s, c, i.isArray) == Some((i.count, c2))
    ensures ReadItems(k, s, c2, i.count) == Some((elems, end))
  {
    StartsParts(s, c, whole, CountBits(i), items, c2);
    CountRead(s, i, c, c2);
    ItemsRead(k, s, elems, c2, i.count, end);
  }

  lemma ReadPointerParts<V>(k: Codec<V>, s: seq<bool>, c: nat, i: Info, c3: nat, values: seq<V>, end: nat)
    requires c + 2 <= |s| && !s[c] && s[c + 1] == i.isArray && ReadCount(s, c + 2, i.isArray) == Some((i.count, c3))
    requires i.isArray ==> ReadItems(k, s, c3, i.count) == Some((values, end))
    requires !i.isArray ==> |values| == 1 && ReadPlain(k, s, c3) == Some((values[0], end))
    ensures ReadPointer(k, s, c) == Some((Elements(values), end))
  {
    assert !i.isArray ==> values == [values[0]];
  }

  lemma PointerRead<V(!new)>(k: Codec<V>, s: seq<bool>, elems: seq<V>, i: Info, c: nat, c2: nat, rest: seq<bool>,
                             whole: seq<bool>, end: nat)
    requires Matches(k) && TagOk(i) && i.count <= |elems| && c2 == c + 2 && rest == PointerBits(k, elems, i, c2)
    requires whole == [false, i.isArray] + rest && Starts(s, c, whole) && end == c + |whole|
    ensures ReadPointer(k, s, c) == Some((Elements(Passed(elems, i)), end))
  {
    FlagsRead(s, c, whole, [false, i.isArray], rest, c2);
    var values := Passed(elems, i);
    if i.isArray {
      var c3 := c2 + |CountBits(i)|;
      ArrayRest(k, s, values, i, c2, c3, ItemsBits(k, values, c3), rest, end);
      ReadPointerParts(k, s, c, i, c3, values, end);
    } else {
      assert TakesBack(k, elems[0], false, c2, s);
      ReadPointerParts(k, s, c, i, c2, values, end);
    }
  }

  /** Behind the flags: the copies of the object. */
  lemma ObjectRest<V(!new)>(k: Codec<V>, s: seq<bool>, id: nat, state: V, i: Info, c: nat, known: map<nat, V>, c2: nat,
                            copies: seq<bool>, whole: seq<bool>, end: nat)
    requires Matches(k) && |s| < TWO32 && TagOk(i) && id < TWO64 && c2 == c + |CountBits(i)| && end == c + |whole|
    requires copies == CopiesBits(k, id, state, i.deref, c2, i.count)
    requires whole == CountBits(i) + copies && Starts(s, c, whole)
    ensures ReadCount(s, c, i.isArray) == Some((i.count, c2))
    ensures ReadCopies(k, s, i.deref, c2, known, i.count) == CopiesResult(known, id, state, i.deref, i.count, end)
  {
    StartsParts(s, c, whole, CountBits(i), copies, c2);
    CountRead(s, i, c, c2);
    CopiesRead(k, s, id, state, i.deref, c2, known, i.count, end);
  }

  lemma ReadObjectParts<V>(k: Codec<V>, s: seq<bool>, c: nat, i: Info, c4: nat, known: map<nat, V>,
                           r: Option<(Got<V>, nat, map<nat, V>)>)
    requires c + 3 <= |s| && !s[c] && s[c + 1] == i.deref && s[c + 2] == i.isArray
    requires ReadCount(s, c + 3, i.isArray) == Some((i.count, c4))
    requires ReadCopies(k, s, i.deref, c4, known, i.count) == r
    ensures ReadObject(k, s, c, known) == r
  {
  }

  lemma ObjectRead<V(!new)>(k: Codec<V>, s: seq<bool>, id: nat, state: V, i: Info, c: nat, known: map<nat, V>, c3: nat,
                            rest: seq<bool>, whole: seq<bool>, end: nat)
    requires Matches(k) && |s| < TWO32 && TagOk(i) && id < TWO64 && c3 == c + 3
    requires rest == ObjectBits(k, id, state, i, c3)
    requires whole == [false, i.deref, i.isArray] + rest && Starts(s, c, whole) && end == c + |whole|
    ensures ReadObject(k, s, c, known) == CopiesResult(known, id, state, i.deref, i.count, end)
  {
    FlagsRead(s, c, whole, [false, i.deref, i.isArray], rest, c3);
    var c4 := c3 + |CountBits(i)|;
    ObjectRest(k, s, id, state, i, c3, known, c4, CopiesBits(k, id, state, i.deref, c4, i.count), rest, end);
    ReadObjectParts(k, s, c, i, c4, known, CopiesResult(known, id, state, i.deref, i.count, end));
  }

  /** What the called function should be given for a parameter. */
  function Meant<V>(a: Arg<V>, tags: map<Ptr, Info>, known: map<nat, V>): Got<V> {
    match a
    case Caller => CallerPtr
    case Plain(v) => Value(v)
    case Pointer(p, elems) => if p == 0 then Null else Elements(Passed(elems, TagOf(tags, p)))
    case Object(p, id, _) => if p == 0 then Null else if TagOf(tags, p).count == 0 then Unset else Found(known, id)
  }

  /** What the receiver should know afterwards. */
  function KnownAfter<V>(a: Arg<V>, tags: map<Ptr, Info>, known: map<nat, V>): map<nat, V> {
    if a.Object? && a.p != 0 && TagOf(tags, a.p).count > 0 then Learned(known, a.id, a.state, TagOf(tags, a.p).deref)
    else known
  }

  /** Meant and KnownAfter, as a reader that ends at the given cursor reports them. */
  function Outcome<V>(a: Arg<V>, tags: map<Ptr, Info>, known: map<nat, V>, end: nat):
      Option<(Got<V>, nat, map<nat, V>)>
  {
    Some((Meant(a, tags, known), end, KnownAfter(a, tags, known)))
  }

  lemma NullRead(s: seq<bool>, c: nat)
    requires Starts(s, c, [true])
    ensures ReadBit(s, c) == Some((true, c + 1))
  {
    assert [true][0];
  }

  /** A parameter is read back as meant, and the reader ends where the writer did. */
  lemma ArgRead<V(!new)>(k: Codec<V>, a: Arg<V>, tags: map<Ptr, Info>, s: seq<bool>, c: nat, known: map<nat, V>,
                         end: nat)
    requires Matches(k) && |s| < TWO32 && Sendable(a, tags) && Starts(s, c, ArgBits(k, a, tags, c))
    requires end == c + |ArgBits(k, a, tags, c)|
    ensures ReadArg(k, KindOf(a), s, c, known) == Outcome(a, tags, known, end)
  {
    match a
    case Caller =>
    case Plain(v) => assert TakesBack(k, v, false, c, s);
    case Pointer(p, elems) =>
      if p == 0 {
        NullRead(s, c);
      } else {
        var i := TagOf(tags, p);
        PointerRead(k, s, elems, i, c, c + 2, PointerBits(k, elems, i, c + 2), ArgBits(k, a, tags, c), end);
      }
    case Object(p, id, state) =>
      if p == 0 {
        NullRead(s, c);
      } else {
        var i := TagOf(tags, p);
        ObjectRead(k, s, id, state, i, c, known, c + 3, ObjectBits(k, id, state, i, c + 3), ArgBits(k, a, tags, c),
                   end);
      }
  }

  /** What a called function gets for a parameter whose pointer is tagged with a count n: values as they
      are, the first n elements of an array in order, an object that is known and null for others. */
  predicate Gets<V(==)>(a: Arg<V>, n: nat, g: Got<V>, known: set<nat>) {
    match a
    case Caller => g == CallerPtr
    case Plain(v) => g == Value(v)
    case Pointer(p, elems) =>
      if p == 0 then g == Null
      else g.Elements? && |g.elems| == n <= |elems| && forall j :: 0 <= j < n ==> g.elems[j] == elems[j]
    case Object(p, id, _) =>
      if p == 0 then g == Null else if n == 0 then g == Unset else if id in known then g == Reference(id) else g == Null
  }

  lemma MeantGets<V>(a: Arg<V>, tags: map<Ptr, Info>, known: map<nat, V>, n: nat)
    requires Sendable(a, tags) && (a.Pointer? || a.Object? ==> n == if a.p in tags then tags[a.p].count else 1)
    ensures Gets(a, n, Meant(a, tags, known), known.Keys)
  {
  }

  /** What the receiver is given for one parameter, where it stops, and what the objects it knows are then:
      the object of a parameter that was sent with its state has that state, and no other has changed. */
  lemma ArgGiven<V(!new)>(k: Codec<V>, a: Arg<V>, tags: map<Ptr, Info>, s: seq<bool>, c: nat, known: map<nat, V>,
                          n: nat)
    requires Matches(k) && |s| < TWO32 && Sendable(a, tags) && Starts(s, c, ArgBits(k, a, tags, c))
    requires a.Pointer? || a.Object? ==> n == if a.p in tags then tags[a.p].count else 1
    ensures var r := ReadArg(k, KindOf(a), s, c, known);
      && r.Some? && Gets(a, n, r.value.0, known.Keys)
      && r.value.1 == c + |ArgBits(k, a, tags, c)|
      && r.value.2.Keys == known.Keys
      && forall id :: id in known ==>
           r.value.2[id]
           == if a.Object? && a.id == id && a.p != 0 && n > 0 && a.p in tags && tags[a.p].deref then a.state
              else known[id]
  {
    ArgRead(k, a, tags, s, c, known, c + |ArgBits(k, a, tags, c)|);
    MeantGets(a, tags, known, n);
  }

  // ---------------------------------------------------------------- parameter lists

  function TagsThrough<V>(args: seq<Arg<V>>, tags: map<Ptr, Info>): map<Ptr, Info> {
    if args == [] then tags else TagsAfter(args[|args| - 1], TagsThrough(args[..|args| - 1], tags))
  }

  predicate AllSendable<V>(args: seq<Arg<V>>, tags: map<Ptr, Info>) {
    args == []
    || (AllSendable(args[..|args| - 1], tags) && Sendable(args[|args| - 1], TagsThrough(args[..|args| - 1], tags)))
  }

  /** A tag is there for the first parameter that has its pointer; later ones find none. */
  lemma {:induction false} TagsUsedUp<V>(args: seq<Arg<V>>, tags: map<Ptr, Info>, p: Ptr)
    ensures TagOf(TagsThrough(args, tags), p)
         == if exists a :: a in args && (a.Pointer? || a.Object?) && a.p == p && p != 0 then Info(1, false, false)
            else TagOf(tags, p)
    decreases |args|
  {
    if args != [] {
      var before, last := args[..|args| - 1], args[|args| - 1];
      assert args == before + [last];
      TagsUsedUp(before, tags, p);
    }
  }

  /** What a caller can pass: a pointer to as many values as it is tagged with, and at least one; an id
      of 64 bits. */
  predicate Passable<V>(a: Arg<V>, tags: map<Ptr, Info>) {
    match a
    case Pointer(p, elems) => p == 0 || (0 < |elems| && TagOf(tags, p).count <= |elems|)
    case Object(p, id, _) => p == 0 || id < TWO64
    case _ => true
  }

  lemma {:induction false} PassableSendable<V>(args: seq<Arg<V>>, tags: map<Ptr, Info>)
    requires TagsOk(tags) && forall a :: a in args ==> Passable(a, tags)
    ensures AllSendable(args, tags)
    decreases |args|
  {
    if args != [] {
      var before, last := args[..|args| - 1], args[|args| - 1];
      assert args == before + [last];
      PassableSendable(before, tags);
      assert Passable(last, tags);
      if last.Pointer? || last.Object? {
        TagsUsedUp(before, tags, last.p);
        assert TagOk(TagOf(tags, last.p));
      }
    }
  }

  function ArgWriter<V>(k: Codec<V>, tags: map<Ptr, Info>): Writer<Arg<V>> {
    (before, a, c: nat) => ArgBits(k, a, TagsThrough(before, tags), c)
  }

  /** What is written for a parameter list at cursor c, each parameter with the tags that are left. */
  function ArgsBits<V>(k: Codec<V>, args: seq<Arg<V>>, tags: map<Ptr, Info>, c: nat): seq<bool> {
    Written(ArgWriter(k, tags), args, c)
  }

  function Kinds<V>(args: seq<Arg<V>>): (r: seq<Kind>)
    ensures |r| == |args| && forall j :: 0 <= j < |r| ==> r[j] == KindOf(args[j])
  {
    if args == [] then [] else Kinds(args[..|args| - 1]) + [KindOf(args[|args| - 1])]
  }

  function ReadArgs<V>(k: Codec<V>, kinds: seq<Kind>, s: seq<bool>, c: nat, known: map<nat, V>):
      Option<(seq<Got<V>>, nat, map<nat, V>)>
  {
    if kinds == [] then Some(([], c, known))
    else match ReadArgs(k, kinds[..|kinds| - 1], s, c, known)
      case None => None
      case Some((gots, next, table)) =>
        match ReadArg(k, kinds[|kinds| - 1], s, next, table)
        case None => None
        case Some((g, end, table')) => Some((gots + [g], end, table'))
  }

  function KnownThrough<V>(args: seq<Arg<V>>, tags: map<Ptr, Info>, known: map<nat, V>): map<nat, V> {
    if args == [] then known
    else
      KnownAfter(args[|args| - 1], TagsThrough(args[..|args| - 1], tags), KnownThrough(args[..|args| - 1], tags, known))
  }

  function AllMeant<V>(args: seq<Arg<V>>, tags: map<Ptr, Info>, known: map<nat, V>): (r: seq<Got<V>>)
    ensures |r| == |args|
  {
    if args == [] then []
    else
      var before := args[..|args| - 1];
      AllMeant(before, tags, known)
          + [Meant(args[|args| - 1], TagsThrough(before, tags), KnownThrough(before, tags, known))]
  }

  /** What a receiver that ends at the given cursor reports of a whole list. */
  function Outcomes<V>(args: seq<Arg<V>>, tags: map<Ptr, Info>, known: map<nat, V>, end: nat):
      Option<(seq<Got<V>>, nat, map<nat, V>)>
  {
    Some((AllMeant(args, tags, known), end, KnownThrough(args, tags, known)))
  }

  lemma OutcomesFollow<V>(k: Codec<V>, args: seq<Arg<V>>, before: seq<Arg<V>>, a: Arg<V>, tags: map<Ptr, Info>,
                          s: seq<bool>, c: nat, known: map<nat, V>, next: nat, end: nat)
    requires Split(args, before, a)
    requires ReadArgs(k, Kinds(before), s, c, known) == Outcomes(before, tags, known, next)
    requires ReadArg(k, KindOf(a), s, next, KnownThrough(before, tags, known))
          == Outcome(a, TagsThrough(before, tags), KnownThrough(before, tags, known), end)
    ensures ReadArgs(k, Kinds(args), s, c, known) == Outcomes(args, tags, known, end)
  {
    assert Kinds(args)[..|before|] == Kinds(before);
  }

  /** Whatever the receiver knows, it reads a whole list back as meant and ends where the writer did. */
  lemma {:induction false} ArgsRead<V(!new)>(k: Codec<V>, args: seq<Arg<V>>, tags: map<Ptr, Info>, s: seq<bool>, c: nat,
                                             known: map<nat, V>, end: nat)
    requires Matches(k) && |s| < TWO32 && AllSendable(args, tags) && Starts(s, c, ArgsBits(k, args, tags, c))
    requires end == c + |ArgsBits(k, args, tags, c)|
    ensures ReadArgs(k, Kinds(args), s, c, known) == Outcomes(args, tags, known, end)
    decreases |args|
  {
    if args != [] {
      var before, a := args[..|args| - 1], args[|args| - 1];
      var next := c + |ArgsBits(k, before, tags, c)|;
      WrittenParts(ArgWriter(k, tags), args, before, a, c, next, s, ArgBits(k, a, TagsThrough(before, tags), next));
      ArgsRead(k, before, tags, s, c, known, next);
      ArgRead(k, a, TagsThrough(before, tags), s, next, KnownThrough(before, tags, known), end);
      OutcomesFollow(k, args, before, a, tags, s, c, known, next, end);
    }
  }

  lemma {:induction false} PrefixSendable<V>(args: seq<Arg<V>>, tags: map<Ptr, Info>, j: nat)
    requires j <= |args| && AllSendable(args, tags)
    ensures AllSendable(args[..j], tags)
    ensures j < |args| ==> Sendable(args[j], TagsThrough(args[..j], tags))
    decreases |args|
  {
    if j == |args| {
      assert args[..j] == args;
    } else if j < |args| - 1 {
      assert args[..|args| - 1][..j] == args[..j];
      PrefixSendable(args[..|args| - 1], tags, j);
    }
  }

  /** After every parameter the reader stands where the writer stood, whichever objects it knows. */
  lemma CursorsAgree<V(!new)>(k: Codec<V>, args: seq<Arg<V>>, tags: map<Ptr, Info>, s: seq<bool>, c: nat,
                              known: map<nat, V>, j: nat)
    requires Matches(k) && |s| < TWO32 && AllSendable(args, tags) && Starts(s, c, ArgsBits(k, args, tags, c))
    requires j <= |args|
    ensures AllSendable(args[..j], tags)
    ensures var r := ReadArgs(k, Kinds(args)[..j], s, c, known);
      && r.Some?
      && r.value.0 == AllMeant(args[..j], tags, known)
      && r.value.1 == c + |ArgsBits(k, args[..j], tags, c)|
  {
    PrefixSendable(args, tags, j);
    WrittenPrefix(ArgWriter(k, tags), args, c, s, j);
    assert Kinds(args)[..j] == Kinds(args[..j]);
    ArgsRead(k, args[..j], tags, s, c, known, c + |ArgsBits(k, args[..j], tags, c)|);
  }

  /** Reading never makes an object known that was not. */
  lemma {:induction false} SameObjectsKnown<V>(args: seq<Arg<V>>, tags: map<Ptr, Info>, known: map<nat, V>)
    ensures KnownThrough(args, tags, known).Keys == known.Keys
    decreases |args|
  {
    if args != [] {
      SameObjectsKnown(args[..|args| - 1], tags, known);
    }
  }

  /** The count that the pointer of parameter j is written with: its tag's for the first parameter that
      has it, and one afterwards. */
  ghost function CountAt<V>(args: seq<Arg<V>>, tags: map<Ptr, Info>, j: nat): nat
    requires j < |args|
  {
    if (args[j].Pointer? || args[j].Object?) && args[j].p in tags
       && !exists i :: 0 <= i < j && (args[i].Pointer? || args[i].Object?) && args[i].p == args[j].p
    then tags[args[j].p].count
    else 1
  }

  lemma TagAt<V>(args: seq<Arg<V>>, tags: map<Ptr, Info>, j: nat)
    requires j < |args| && (args[j].Pointer? || args[j].Object?) && args[j].p != 0
    ensures TagOf(TagsThrough(args[..j], tags), args[j].p).count == CountAt(args, tags, j)
  {
    TagsUsedUp(args[..j], tags, args[j].p);
    if i :| 0 <= i < j && (args[i].Pointer? || args[i].Object?) && args[i].p == args[j].p {
      assert args[..j][i] in args[..j];
    }
  }

  lemma {:induction false} MeantAt<V>(args: seq<Arg<V>>, tags: map<Ptr, Info>, known: map<nat, V>, j: nat)
    requires j < |args|
    ensures AllMeant(args, tags, known)[j]
         == Meant(args[j], TagsThrough(args[..j], tags), KnownThrough(args[..j], tags, known))
    decreases |args|
  {
    var before := args[..|args| - 1];
    if j < |before| {
      MeantAt(before, tags, known, j);
      assert before[..j] == args[..j];
    }
  }

  /** What the receiver is given for each parameter of a list, in terms of what was passed and tagged. */
  lemma ArgsGiven<V(!new)>(k: Codec<V>, args: seq<Arg<V>>, tags: map<Ptr, Info>, s: seq<bool>, c: nat,
                           known: map<nat, V>)
    requires Matches(k) && |s| < TWO32 && AllSendable(args, tags) && Starts(s, c, ArgsBits(k, args, tags, c))
    ensures var r := ReadArgs(k, Kinds(args), s, c, known);
      && r.Some? && |r.value.0| == |args|
      && forall j :: 0 <= j < |args| ==>
           Gets(args[j], CountAt(args, tags, j), r.value.0[j], known.Keys)
  {
    ArgsRead(k, args, tags, s, c, known, c + |ArgsBits(k, args, tags, c)|);
    var gots := ReadArgs(k, Kinds(args), s, c, known).value.0;
    forall j | 0 <= j < |args|
      ensures Gets(args[j], CountAt(args, tags, j), gots[j], known.Keys)
    {
      GivenAt(args, tags, known, j);
    }
  }

  lemma GivenAt<V>(args: seq<Arg<V>>, tags: map<Ptr, Info>, known: map<nat, V>, j: nat)
    requires AllSendable(args, tags) && j < |args|
    ensures Gets(args[j], CountAt(args, tags, j), AllMeant(args, tags, known)[j], known.Keys)
  {
    MeantAt(args, tags, known, j);
    SameObjectsKnown(args[..j], tags, known);
    PrefixSendable(args, tags, j);
    var here := TagsThrough(args[..j], tags);
    if (args[j].Pointer? || args[j].Object?) && args[j].p != 0 {
      TagAt(args, tags, j);
      MeantGets(args[j], here, KnownThrough(args[..j], tags, known), CountAt(args, tags, j));
    }
  }

  // ---------------------------------------------------------------- the layout of the bits

  /** Behind a false bit, which says that the pointer is not null, an object has a bit for its state and one
      for an array, and any other pointer the latter only. */
  lemma FlagsFirst<V>(k: Codec<V>, a: Arg<V>, tags: map<Ptr, Info>, c: nat)
    requires (a.Pointer? || a.Object?) && a.p in tags
    ensures var b := ArgBits(k, a, tags, c);
      if a.p == 0 then b == [true]
      else if a.Object? then
        |b| >= 3 && b[0] == false && b[1] == tags[a.p].deref && b[2] == tags[a.p].isArray
      else |b| >= 2 && b[0] == false && b[1] == tags[a.p].isArray
  {
  }

  /** Array elements follow each other in order. */
  lemma ItemsInOrder<V>(k: Codec<V>, elems: seq<V>, c: nat, s: seq<bool>, j: nat, at: nat)
    requires Starts(s, c, ItemsBits(k, elems, c)) && j < |elems| && at == c + |ItemsBits(k, elems[..j], c)|
    ensures Starts(s, c, ItemsBits(k, elems[..j], c)) && Starts(s, at, k.enc(elems[j], true, at))
  {
    WrittenPrefix(ItemWriter(k), elems, c, s, j);
    WrittenPrefix(ItemWriter(k), elems, c, s, j + 1);
    assert elems[..j + 1][..j] == elems[..j];
    WrittenParts(ItemWriter(k), elems[..j + 1], elems[..j], elems[j], c, at, s, k.enc(elems[j], true, at));
  }
}
