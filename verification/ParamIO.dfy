/** The writers and readers of call parameters, as they move the cursors of a stream, use up the tags
    of a ring and change the objects that the receiver knows. */
module ParamIO {
  import opened BitCodes
  import opened BitLists
  import opened BitStreams
  import opened Options
  import opened ParamFraming
  import opened TagRing

  /** The objects that the receiver can find by network id. */
  class ObjectTable<V> {
    var known: map<nat, V>

    constructor ()
      ensures known == map[]
    {
      known := map[];
    }
  }

  // ---------------------------------------------------------------- writing

  /** The body behind a length that is not known yet: the length's place is written, then the body,
      then the write cursor goes back to put the length in. */
  method WriteSizedBody<V>(bs: BitStream, k: Codec<V>, state: V)
    requires bs.AtEnd() && bs.used % 8 == 0
    modifies bs`data, bs`used
    ensures bs.AtEnd() && bs.data == old(bs.data) + SizedBody(k, state, |old(bs.data)|)
  {
    ghost var start := bs.data;
    var writeOffset1 := bs.used;
    var bitsUsed1 := bs.used;
    var blank := Bits(bitsUsed1, 32);
    bs.Append(blank);
    bitsUsed1 := bs.used;
    var body := k.enc(state, false, bs.used);
    bs.Append(body);
    var writeOffset2 := bs.used;
    var bitsUsed2 := bs.used;
    assert bs.data == start + blank + body;
    bs.SetWriteOffset(writeOffset1);
    bs.Write(Bits((bitsUsed2 - bitsUsed1) % TWO32, 32));
    bs.SetWriteOffset(writeOffset2);
    Patched(start, blank, body, Bits(|body| % TWO32, 32), bs.data);
  }

  lemma Patched(start: seq<bool>, blank: seq<bool>, body: seq<bool>, length: seq<bool>, data: seq<bool>)
    requires |blank| == |length|
    requires var was := start + blank + body;
      data == was[..|start|] + length + (if |start| + |length| < |was| then was[|start| + |length|..] else [])
    ensures data == start + (length + body)
  {
    var was := start + blank + body;
    assert was[..|start|] == start;
    assert was[|start| + |length|..] == body;
  }

  method WriteCopy<V>(bs: BitStream, k: Codec<V>, id: nat, state: V, deref: bool)
    requires bs.AtEnd()
    modifies bs`data, bs`used
    ensures bs.AtEnd() && bs.data == old(bs.data) + CopyBits(k, id, state, deref, |old(bs.data)|)
  {
    ghost var start := bs.data;
    bs.Append(Bits(id, 64));
    if deref {
      bs.AlignWriteToByteBoundary();
      WriteSizedBody(bs, k, state);
      ghost var c := |start|;
      Regroup(start, Bits(id, 64), Padded(c + 64), SizedBody(k, state, c + 64 + Padding(c + 64)));
    }
  }

  lemma Regroup(a: seq<bool>, b: seq<bool>, c: seq<bool>, d: seq<bool>)
    ensures a + b + c + d == a + (b + (c + d))
  {
  }

  lemma Regroup3(a: seq<bool>, b: seq<bool>, c: seq<bool>)
    ensures a + b + c == a + (b + c)
  {
  }

  method WriteCount(bs: BitStream, tag: Info)
    requires bs.AtEnd()
    modifies bs`data, bs`used
    ensures bs.AtEnd() && bs.data == old(bs.data) + CountBits(tag)
  {
    if tag.isArray {
      bs.WriteCompressed(CountBytes(tag.count), true);
    }
  }

  method WriteCopies<V>(bs: BitStream, k: Codec<V>, id: nat, state: V, tag: Info)
    requires bs.AtEnd()
    modifies bs`data, bs`used
    ensures bs.AtEnd() && bs.data == old(bs.data) + CopiesBits(k, id, state, tag.deref, |old(bs.data)|, tag.count)
  {
    ghost var start, w := bs.data, CopyWriter(k, id, state, tag.deref);
    var i := 0;
    while i < tag.count
      invariant i <= tag.count && bs.AtEnd()
      invariant bs.data == start + Repeated(w, |start|, i)
    {
      RepeatedOnto(w, start, |start|, i, bs.data);
      WriteCopy(bs, k, id, state, tag.deref);
      i := i + 1;
    }
  }

  method WriteItems<V>(bs: BitStream, k: Codec<V>, elems: seq<V>)
    requires bs.AtEnd()
    modifies bs`data, bs`used
    ensures bs.AtEnd() && bs.data == old(bs.data) + ItemsBits(k, elems, |old(bs.data)|)
  {
    ghost var start, w := bs.data, ItemWriter(k);
    var i := 0;
    while i < |elems|
      invariant i <= |elems| && bs.AtEnd()
      invariant bs.data == start + Written(w, elems[..i], |start|)
    {
      assert elems[..i + 1][..i] == elems[..i];
      WrittenOnto(w, elems[..i + 1], elems[..i], elems[i], start, |start|, bs.data);
      bs.Append(k.enc(elems[i], true, bs.used));
      i := i + 1;
    }
    assert elems[..i] == elems;
  }

  /** The tags that the ring stands for. */
  ghost function Tags(ring: Ring): map<Ptr, Info>
    requires ring.Valid()
    reads ring, ring.tags
  {
    Meaning(ring.Window())
  }

  method TakeTag(ring: Ring, p: Ptr) returns (tag: Info)
    requires ring.Valid() && p != 0
    modifies ring`tail, ring.tags
    ensures ring.Valid() && ring.tags == old(ring.tags)
    ensures tag == TagOf(old(Tags(ring)), p) && Tags(ring) == old(Tags(ring)) - {p}
  {
    ClearedMeaning(ring.Window(), p);
    var found;
    tag, found := ring.ClearPtr(p);
  }

  method WriteObjectBits<V>(bs: BitStream, k: Codec<V>, id: nat, state: V, tag: Info)
    requires bs.AtEnd()
    modifies bs`data, bs`used
    ensures bs.AtEnd() && bs.data == old(bs.data) + ObjectBits(k, id, state, tag, |old(bs.data)|)
  {
    ghost var start := bs.data;
    WriteCount(bs, tag);
    WriteCopies(bs, k, id, state, tag);
    Regroup3(start, CountBits(tag), CopiesBits(k, id, state, tag.deref, |start| + |CountBits(tag)|, tag.count));
  }

  method WritePointerBits<V>(bs: BitStream, k: Codec<V>, elems: seq<V>, tag: Info)
    requires bs.AtEnd() && TagOk(tag) && tag.count <= |elems|
    modifies bs`data, bs`used
    ensures bs.AtEnd() && bs.data == old(bs.data) + PointerBits(k, elems, tag, |old(bs.data)|)
  {
    ghost var start := bs.data;
    if tag.isArray {
      WriteCount(bs, tag);
      WriteItems(bs, k, elems[..tag.count]);
      Regroup3(start, CountBits(tag), ItemsBits(k, elems[..tag.count], |start| + |CountBits(tag)|));
    } else {
      bs.Append(k.enc(elems[0], false, bs.used));
    }
  }

  /** For a parameter that is a pointer to an object with a network id. */
  method WriteWithNetworkIDPtr<V>(bs: BitStream, ring: Ring, k: Codec<V>, p: Ptr, id: nat, state: V)
    requires bs.AtEnd() && ring.Valid()
    modifies bs`data, bs`used, ring`tail, ring.tags
    ensures bs.AtEnd() && ring.Valid() && ring.tags == old(ring.tags)
    ensures bs.data == old(bs.data) + ArgBits(k, Object(p, id, state), old(Tags(ring)), |old(bs.data)|)
    ensures Tags(ring) == TagsAfter(Object(p, id, state), old(Tags(ring)))
  {
    ghost var start := bs.data;
    if p == 0 {
      bs.Append([true]);
      return;
    }
    bs.Append([false]);
    var tag := TakeTag(ring, p);
    bs.Append([tag.deref]);
    bs.Append([tag.isArray]);
    ghost var flags := [false, tag.deref, tag.isArray];
    assert bs.data == start + flags;
    WriteObjectBits(bs, k, id, state, tag);
    Regroup3(start, flags, ObjectBits(k, id, state, tag, |start| + 3));
  }

  /** For any other pointer but one to the caller. */
  method WriteWithoutNetworkIDPtr<V>(bs: BitStream, ring: Ring, k: Codec<V>, p: Ptr, elems: seq<V>)
    requires bs.AtEnd() && ring.Valid() && Sendable(Pointer(p, elems), Tags(ring))
    modifies bs`data, bs`used, ring`tail, ring.tags
    ensures bs.AtEnd() && ring.Valid() && ring.tags == old(ring.tags)
    ensures bs.data == old(bs.data) + ArgBits(k, Pointer(p, elems), old(Tags(ring)), |old(bs.data)|)
    ensures Tags(ring) == TagsAfter(Pointer(p, elems), old(Tags(ring)))
  {
    ghost var start := bs.data;
    if p == 0 {
      bs.Append([true]);
      return;
    }
    bs.Append([false]);
    var tag := TakeTag(ring, p);
    bs.Append([tag.isArray]);
    ghost var flags := [false, tag.isArray];
    assert bs.data == start + flags;
    WritePointerBits(bs, k, elems, tag);
    Regroup3(start, flags, PointerBits(k, elems, tag, |start| + 2));
  }

  /** The writer that a parameter's type selects. */
  method WriteArg<V>(bs: BitStream, ring: Ring, k: Codec<V>, a: Arg<V>)
    requires bs.AtEnd() && ring.Valid() && Sendable(a, Tags(ring))
    modifies bs`data, bs`used, ring`tail, ring.tags
    ensures bs.AtEnd() && ring.Valid() && ring.tags == old(ring.tags)
    ensures bs.data == old(bs.data) + ArgBits(k, a, old(Tags(ring)), |old(bs.data)|)
    ensures Tags(ring) == TagsAfter(a, old(Tags(ring)))
  {
    match a
    case Caller =>
    case Plain(v) => bs.Append(k.enc(v, false, bs.used));
    case Pointer(p, elems) => WriteWithoutNetworkIDPtr(bs, ring, k, p, elems);
    case Object(p, id, state) => WriteWithNetworkIDPtr(bs, ring, k, p, id, state);
  }

  lemma TagsUnfold<V>(args: seq<Arg<V>>, before: seq<Arg<V>>, a: Arg<V>, tags: map<Ptr, Info>)
    requires Split(args, before, a)
    ensures TagsThrough(args, tags) == TagsAfter(a, TagsThrough(before, tags))
  {
  }

  /** All parameters of a call, in order. */
  method WriteArgs<V>(bs: BitStream, ring: Ring, k: Codec<V>, args: seq<Arg<V>>)
    requires bs.AtEnd() && ring.Valid() && AllSendable(args, Tags(ring))
    modifies bs`data, bs`used, ring`tail, ring.tags
    ensures bs.AtEnd() && ring.Valid()
    ensures bs.data == old(bs.data) + ArgsBits(k, args, old(Tags(ring)), |old(bs.data)|)
    ensures Tags(ring) == TagsThrough(args, old(Tags(ring)))
  {
    ghost var start, tags, w := bs.data, Tags(ring), ArgWriter(k, Tags(ring));
    var i := 0;
    while i < |args|
      invariant i <= |args| && bs.AtEnd() && ring.Valid() && ring.tags == old(ring.tags)
      invariant bs.data == start + Written(w, args[..i], |start|)
      invariant Tags(ring) == TagsThrough(args[..i], tags)
    {
      PrefixSendable(args, tags, i);
      assert args[..i + 1][..i] == args[..i];
      WrittenOnto(w, args[..i + 1], args[..i], args[i], start, |start|, bs.data);
      TagsUnfold(args[..i + 1], args[..i], args[i], tags);
      WriteArg(bs, ring, k, args[i]);
      i := i + 1;
    }
    assert args[..i] == args;
  }

  // ---------------------------------------------------------------- reading

  /** One id, and the body that follows it when the object was sent by value. */
  method ReadOneCopy<V>(bs: BitStream, objects: ObjectTable<V>, k: Codec<V>, deref: bool) returns (r: Option<Got<V>>)
    requires bs.Valid()
    modifies bs`readOffset, objects
    ensures match ReadCopy(k, bs.data[..bs.used], deref, old(bs.readOffset), old(objects.known))
            case None => r == None
            case Some((t, next, table)) => r == Some(t) && bs.readOffset == next && objects.known == table
  {
    var networkId := bs.Read(64);
    if networkId == None {
      return None;
    }
    var id := networkId.value;
    var t := if id in objects.known then Reference(id) else Null;
    if deref {
      bs.AlignReadToByteBoundary();
      var bitsUsed := bs.Read(32);
      if bitsUsed == None {
        return None;
      }
      if t != Null {
        match k.dec(bs.data[..bs.used], false, bs.readOffset) {
          case None => return None;
          case Some((v, next)) =>
            bs.readOffset := next;
            objects.known := objects.known[id := v];
        }
      } else {
        bs.IgnoreBits(bitsUsed.value);
      }
    }
    return Some(t);
  }

  method ReadTheCount(bs: BitStream, isArray: bool) returns (r: Option<nat>)
    requires bs.Valid()
    modifies bs`readOffset
    ensures match ReadCount(bs.data[..bs.used], old(bs.readOffset), isArray)
            case None => r == None
            case Some((count, next)) => r == Some(count) && bs.readOffset == next
  {
    if !isArray {
      return Some(1);
    }
    var bytes := bs.ReadCompressed(4, true);
    match bytes
    case None => return None;
    case Some(b) => return Some(CountOf(b));
  }

  lemma {:induction false} CopiesFail<V>(k: Codec<V>, s: seq<bool>, deref: bool, c: nat, known: map<nat, V>, i: nat,
                                         n: nat)
    requires i <= n && ReadCopies(k, s, deref, c, known, i) == None
    ensures ReadCopies(k, s, deref, c, known, n) == None
  {
    if i < n {
      CopiesFail(k, s, deref, c, known, i, n - 1);
    }
  }

  lemma CopiesNext<V>(k: Codec<V>, s: seq<bool>, deref: bool, c: nat, known: map<nat, V>, i: nat, t: Got<V>, next: nat,
                      table: map<nat, V>)
    requires ReadCopies(k, s, deref, c, known, i) == Some((t, next, table))
    ensures ReadCopies(k, s, deref, c, known, i + 1) == ReadCopy(k, s, deref, next, table)
  {
  }

  method ReadAllCopies<V>(bs: BitStream, objects: ObjectTable<V>, k: Codec<V>, deref: bool, count: nat)
    returns (r: Option<Got<V>>)
    requires bs.Valid()
    modifies bs`readOffset, objects
    ensures match ReadCopies(k, bs.data[..bs.used], deref, old(bs.readOffset), old(objects.known), count)
            case None => r == None
            case Some((t, next, table)) => r == Some(t) && bs.readOffset == next && objects.known == table
  {
    ghost var s, c, known := bs.data[..bs.used], bs.readOffset, objects.known;
    var t: Got<V> := Unset;
    var i := 0;
    while i < count
      invariant i <= count && bs.Valid() && bs.data[..bs.used] == s
      invariant ReadCopies(k, s, deref, c, known, i) == Some((t, bs.readOffset, objects.known))
    {
      CopiesNext(k, s, deref, c, known, i, t, bs.readOffset, objects.known);
      var copy := ReadOneCopy(bs, objects, k, deref);
      if copy == None {
        CopiesFail(k, s, deref, c, known, i + 1, count);
        return None;
      }
      t := copy.value;
      i := i + 1;
    }
    return Some(t);
  }

  /** For a parameter that is a pointer to an object with a network id. */
  method ReadWithNetworkIDPtr<V>(bs: BitStream, objects: ObjectTable<V>, k: Codec<V>) returns (r: Option<Got<V>>)
    requires bs.Valid()
    modifies bs`readOffset, objects
    ensures match ReadObject(k, bs.data[..bs.used], old(bs.readOffset), old(objects.known))
            case None => r == None
            case Some((t, next, table)) => r == Some(t) && bs.readOffset == next && objects.known == table
  {
    var isNull := bs.ReadBool();
    if isNull == None {
      return None;
    }
    if isNull.value {
      return Some(Null);
    }
    var deref := bs.ReadBool();
    if deref == None {
      return None;
    }
    var isArray := bs.ReadBool();
    if isArray == None {
      return None;
    }
    var count := ReadTheCount(bs, isArray.value);
    if count == None {
      return None;
    }
    r := ReadAllCopies(bs, objects, k, deref.value, count.value);
  }

  lemma {:induction false} ItemsFail<V>(k: Codec<V>, s: seq<bool>, c: nat, i: nat, n: nat)
    requires i <= n && ReadItems(k, s, c, i) == None
    ensures ReadItems(k, s, c, n) == None
  {
    if i < n {
      ItemsFail(k, s, c, i, n - 1);
    }
  }

  method ReadAllItems<V>(bs: BitStream, k: Codec<V>, count: nat) returns (r: Option<seq<V>>)
    requires bs.Valid()
    modifies bs`readOffset
    ensures match ReadItems(k, bs.data[..bs.used], old(bs.readOffset), count)
            case None => r == None
            case Some((items, next)) => r == Some(items) && bs.readOffset == next
  {
    ghost var s, c := bs.data[..bs.used], bs.readOffset;
    var items: seq<V> := [];
    var i := 0;
    while i < count
      invariant i <= count && bs.Valid() && bs.data[..bs.used] == s
      invariant ReadItems(k, s, c, i) == Some((items, bs.readOffset))
    {
      match k.dec(bs.data[..bs.used], true, bs.readOffset) {
        case None =>
          ItemsFail(k, s, c, i + 1, count);
          return None;
        case Some((v, next)) =>
          bs.readOffset := next;
          items := items + [v];
      }
      i := i + 1;
    }
    return Some(items);
  }

  /** For any other pointer but one to the caller. */
  method ReadWithoutNetworkIDPtr<V>(bs: BitStream, k: Codec<V>) returns (r: Option<Got<V>>)
    requires bs.Valid()
    modifies bs`readOffset
    ensures match ReadPointer(k, bs.data[..bs.used], old(bs.readOffset))
            case None => r == None
            case Some((t, next)) => r == Some(t) && bs.readOffset == next
  {
    var isNull := bs.ReadBool();
    if isNull == None {
      return None;
    }
    if isNull.value {
      return Some(Null);
    }
    var isArray := bs.ReadBool();
    if isArray == None {
      return None;
    }
    var count := ReadTheCount(bs, isArray.value);
    if count == None {
      return None;
    }
    if isArray.value {
      var items := ReadAllItems(bs, k, count.value);
      match items
      case None => return None;
      case Some(values) => return Some(Elements(values));
    }
    match k.dec(bs.data[..bs.used], false, bs.readOffset)
    case None => return None;
    case Some((v, next)) =>
      bs.readOffset := next;
      return Some(Elements([v]));
  }

  /** The reader that a parameter's type selects. */
  method ReadOneArg<V>(bs: BitStream, objects: ObjectTable<V>, k: Codec<V>, kind: Kind) returns (r: Option<Got<V>>)
    requires bs.Valid()
    modifies bs`readOffset, objects
    ensures match ReadArg(k, kind, bs.data[..bs.used], old(bs.readOffset), old(objects.known))
            case None => r == None
            case Some((t, next, table)) => r == Some(t) && bs.readOffset == next && objects.known == table
  {
    match kind
    case CallerKind => return Some(CallerPtr);
    case PlainKind =>
      match k.dec(bs.data[..bs.used], false, bs.readOffset) {
        case None => return None;
        case Some((v, next)) =>
          bs.readOffset := next;
          return Some(Value(v));
      }
    case PointerKind => r := ReadWithoutNetworkIDPtr(bs, k);
    case ObjectKind => r := ReadWithNetworkIDPtr(bs, objects, k);
  }

  lemma {:induction false} ArgsFail<V>(k: Codec<V>, kinds: seq<Kind>, s: seq<bool>, c: nat, known: map<nat, V>, i: nat)
    requires i <= |kinds| && ReadArgs(k, kinds[..i], s, c, known) == None
    ensures ReadArgs(k, kinds, s, c, known) == None
    decreases |kinds|
  {
    if i == |kinds| {
      assert kinds[..i] == kinds;
    } else {
      assert kinds[..|kinds| - 1][..i] == kinds[..i];
      ArgsFail(k, kinds[..|kinds| - 1], s, c, known, i);
    }
  }

  /** All parameters of a call, in order. */
  method ReadAllArgs<V>(bs: BitStream, objects: ObjectTable<V>, k: Codec<V>, kinds: seq<Kind>)
    returns (r: Option<seq<Got<V>>>)
    requires bs.Valid()
    modifies bs`readOffset, objects
    ensures match ReadArgs(k, kinds, bs.data[..bs.used], old(bs.readOffset), old(objects.known))
            case None => r == None
            case Some((gots, next, table)) => r == Some(gots) && bs.readOffset == next && objects.known == table
  {
    ghost var s, c, known := bs.data[..bs.used], bs.readOffset, objects.known;
    var gots: seq<Got<V>> := [];
    var i := 0;
    while i < |kinds|
      invariant i <= |kinds| && bs.Valid() && bs.data[..bs.used] == s
      invariant ReadArgs(k, kinds[..i], s, c, known) == Some((gots, bs.readOffset, objects.known))
    {
      assert kinds[..i + 1][..i] == kinds[..i];
      var got := ReadOneArg(bs, objects, k, kinds[i]);
      if got == None {
        ArgsFail(k, kinds, s, c, known, i + 1);
        return None;
      }
      gots := gots + [got.value];
      i := i + 1;
    }
    assert kinds[..i] == kinds;
    return Some(gots);
  }
}
