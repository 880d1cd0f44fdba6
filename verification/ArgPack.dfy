/** Packing kernel arguments: the layout, and an unpacker that undoes it. */
module ArgPack {
  import opened Words
  import opened Options
  import opened ArgAlignment

  // ------------------------------------------------ descriptors and their bytes

  datatype Kind = Address | Value | OtherKind
  datatype Space = Local | Global | OtherSpace

  datatype Arg = Arg(kind: Kind, space: Space, size: Word, address: Word, pod: seq<byte>)

  /** Little-endian bytes of an integer. */
  function Bytes(v: nat, n: nat): (s: seq<byte>)
    ensures |s| == n
    decreases n
  {
    if n == 0 then [] else [(v % 256) as byte] + Bytes(v / 256, n - 1)
  }

  function FromBytes(s: seq<byte>): nat {
    if s == [] then 0 else s[0] as nat + 256 * FromBytes(s[1..])
  }

  lemma {:induction false} BytesRoundTrip(v: nat, n: nat)
    requires v < Pow2(8 * n)
    ensures FromBytes(Bytes(v, n)) == v
    decreases n
  {
    if n > 0 {
      Pow2Add(8, 8 * n - 8);
      assert Pow2(8) == 256;
      BytesRoundTrip(v / 256, n - 1);
      var s := Bytes(v, n);
      assert s[1..] == Bytes(v / 256, n - 1);
    }
  }

  /** What an argument of this kind occupies: an alignment (0 for an empty value) and a length.
      None if the combination is not supported. */
  ghost function Slot(kind: Kind, space: Space, size: Word, wordSize: nat): Option<(Word, Word)> {
    match (space, kind)
    case (Global, Address) => Some((8, 8))
    case (Global, Value) => Some((NaturalAlignment(size), size))
    case (Local, Address) => if wordSize == 64 then Some((8, 8)) else if wordSize == 32 then Some((4, 4)) else None
    case _ => None
  }

  /** The bytes stored for it. */
  function Payload(arg: Arg, wordSize: nat): seq<byte> {
    match (arg.space, arg.kind)
    case (Global, Address) => Bytes(arg.address, 8)
    case (Global, Value) => arg.pod
    case (Local, Address) =>
      if wordSize == 64 then Bytes(arg.size, 8)
      else if wordSize == 32 then Bytes(arg.size % 0x1_0000_0000, 4)
      else []
    case _ => []
  }

  ghost predicate WellFormed(arg: Arg) {
    arg.space == Global && arg.kind == Value ==> |arg.pod| == arg.size <= Pow2(63)
  }

  function Zeros(n: nat): (z: seq<byte>)
    ensures |z| == n && forall i :: 0 <= i < n ==> z[i] == 0
  {
    seq(n, _ => 0)
  }

  /** `bytes` placed at the least multiple of `m` not before the end of `pack`, the gap zeroed. */
  ghost function Placed(pack: seq<byte>, m: nat, bytes: seq<byte>): seq<byte>
    requires m > 0
  {
    AlignUpLeast(|pack|, m, 0);
    pack + Zeros(AlignUp(|pack|, m) - |pack|) + bytes
  }

  ghost predicate Supported(arg: Arg, wordSize: nat) {
    Slot(arg.kind, arg.space, arg.size, wordSize).Some?
  }

  ghost function Alignment(arg: Arg, wordSize: nat): Word
    requires Supported(arg, wordSize)
  {
    Slot(arg.kind, arg.space, arg.size, wordSize).value.0
  }

  /** The pack after one more argument; unsupported ones leave it alone. */
  ghost function Extended(pack: seq<byte>, arg: Arg, wordSize: nat): seq<byte> {
    if !Supported(arg, wordSize) then pack
    else if Alignment(arg, wordSize) == 0 then []
    else Placed(pack, Alignment(arg, wordSize), Payload(arg, wordSize))
  }

  /** The pack stays below 2^64 bytes. */
  ghost predicate Room(pack: seq<byte>, arg: Arg, wordSize: nat) {
    |Extended(pack, arg, wordSize)| < TWO64
  }

  lemma WordSlots()
    ensures IsPow2(8) && IsPow2(4)
  {
    assert 8 == Pow2(3) && 4 == Pow2(2);
  }

  lemma ValueSlot(size: Word)
    requires size <= Pow2(63)
    ensures NaturalAlignment(size) == 0 <==> size == 0
    ensures size != 0 ==> IsPow2(NaturalAlignment(size))
  {
    Pow2Of64();
    if size > 0 {
      LeastPower2Meaning(size, 63);
    }
  }

  lemma SlotMeaning(arg: Arg, wordSize: nat)
    requires WellFormed(arg) && Supported(arg, wordSize)
    ensures |Payload(arg, wordSize)| == Slot(arg.kind, arg.space, arg.size, wordSize).value.1
    ensures Alignment(arg, wordSize) == 0 <==> arg.space == Global && arg.kind == Value && arg.size == 0
    ensures Alignment(arg, wordSize) != 0 ==> IsPow2(Alignment(arg, wordSize))
  {
    WordSlots();
    if arg.kind == Value {
      ValueSlot(arg.size);
    }
  }

  /** Every argument up to the first unsupported one is well formed and there is room for it. */
  ghost predicate Packable(pack: seq<byte>, args: seq<Arg>, wordSize: nat)
    decreases |args|
  {
    args == [] || (
      && WellFormed(args[0]) && Room(pack, args[0], wordSize)
      && (Supported(args[0], wordSize) ==> Packable(Extended(pack, args[0], wordSize), args[1..], wordSize)))
  }

  /** The pack after all arguments, or None if one of them is not supported. */
  ghost function PackFrom(pack: seq<byte>, args: seq<Arg>, wordSize: nat): Option<seq<byte>>
    decreases |args|
  {
    if args == [] then Some(pack)
    else if !Supported(args[0], wordSize) then None
    else PackFrom(Extended(pack, args[0], wordSize), args[1..], wordSize)
  }

  /** How many arguments come before the first unsupported one. */
  ghost function Leading(args: seq<Arg>, wordSize: nat): (n: nat)
    ensures n <= |args|
  {
    if args == [] || !Supported(args[0], wordSize) then 0 else 1 + Leading(args[1..], wordSize)
  }

  /** The pack of all arguments before the first unsupported one. */
  ghost function PackLeading(pack: seq<byte>, args: seq<Arg>, wordSize: nat): seq<byte>
    decreases |args|
  {
    if args == [] || !Supported(args[0], wordSize) then pack
    else PackLeading(Extended(pack, args[0], wordSize), args[1..], wordSize)
  }

  lemma {:induction false} LeadingPacked(pack: seq<byte>, args: seq<Arg>, wordSize: nat)
    ensures PackFrom(pack, args[..Leading(args, wordSize)], wordSize) == Some(PackLeading(pack, args, wordSize))
    ensures PackFrom(pack, args, wordSize).Some? <==> Leading(args, wordSize) == |args|
    decreases |args|
  {
    if args != [] && Supported(args[0], wordSize) {
      LeadingPacked(Extended(pack, args[0], wordSize), args[1..], wordSize);
      var n := Leading(args, wordSize);
      assert args[..n][1..] == args[1..][..n - 1];
    }
  }

  class HalArgPack {
    var pack: seq<byte>
    const wordSize: nat

    constructor (wordSize: nat)
      ensures this.wordSize == wordSize && pack == []
    {
      this.wordSize := wordSize;
      pack := [];
    }

    /** resize(size() + n), with the sum taken on 64 bits. */
    method Expand(n: Word)
      requires |pack| < TWO64
      modifies this
      ensures |pack| == Add(old(|pack|), n)
      ensures pack == if Add(old(|pack|), n) >= old(|pack|)
                      then old(pack) + Zeros(Add(old(|pack|), n) - old(|pack|)) else old(pack)[..Add(old(|pack|), n)]
    {
      var size := Add(|pack|, n);
      pack := if size >= |pack| then pack + Zeros(size - |pack|) else pack[..size];
    }

    method Store(at: nat, bytes: seq<byte>)
      requires at + |bytes| <= |pack|
      modifies this
      ensures pack == old(pack)[..at] + bytes + old(pack)[at + |bytes|..]
    {
      pack := pack[..at] + bytes + pack[at + |bytes|..];
    }

    /** Padding, growth and copy of one argument's bytes. */
    method Append(m: Word, bytes: seq<byte>)
      requires |pack| < TWO64 && |bytes| < TWO64
      requires m == 0 ==> bytes == []
      requires m > 0 ==> IsPow2(m) && |Placed(pack, m, bytes)| < TWO64
      modifies this
      ensures pack == if m == 0 then [] else Placed(old(pack), m, bytes)
    {
      var writePoint: Word := |pack|;
      var padding := CalcPadding(writePoint, m);
      PaddingMeaning(writePoint, m);
      Expand(Add(|bytes|, padding));
      writePoint := Add(writePoint, padding);
      Store(writePoint, bytes);
    }

    method AddArg(arg: Arg) returns (ok: bool)
      requires WellFormed(arg) && |pack| < TWO64 && Room(pack, arg, wordSize)
      modifies this
      ensures ok == Supported(arg, wordSize)
      ensures pack == Extended(old(pack), arg, wordSize) && |pack| < TWO64
    {
      if Supported(arg, wordSize) {
        SlotMeaning(arg, wordSize);
      }
      match arg.space
      case Global =>
        match arg.kind {
          case Address =>
            Append(8, Bytes(arg.address, 8));
          case Value =>
            var alignment := RoundUpPower2(arg.size);
            Append(alignment, arg.pod);
          case OtherKind =>
            return false;
        }
        return true;
      case Local =>
        if arg.kind != Address {
          return false;
        }
        if wordSize == 64 {
          Append(8, Bytes(arg.size, 8));
        } else if wordSize == 32 {
          Append(4, Bytes(arg.size % 0x1_0000_0000, 4));
        } else {
          return false;
        }
        return true;
      case OtherSpace =>
        return false;
    }

    method Build(args: seq<Arg>) returns (ok: bool)
      requires Packable([], args, wordSize)
      modifies this
      ensures ok == PackFrom([], args, wordSize).Some?
      ensures PackFrom([], args[..Leading(args, wordSize)], wordSize) == Some(pack)
      ensures ok ==> PackFrom([], args, wordSize) == Some(pack)
    {
      pack := [];
      ghost var goal := PackFrom([], args, wordSize);
      LeadingPacked([], args, wordSize);
      assert args[..|args|] == args;
      ghost var rest := args;
      var i := 0;
      while i < |args|
        invariant i <= |args| && rest == args[i..]
        invariant |pack| < TWO64 && Packable(pack, rest, wordSize)
        invariant PackFrom(pack, rest, wordSize) == goal
        invariant PackLeading(pack, rest, wordSize) == PackLeading([], args, wordSize)
      {
        var added := AddArg(args[i]);
        if !added {
          return false;
        }
        rest := rest[1..];
        i := i + 1;
      }
      return true;
    }
  }

  // ------------------------------------------------ what the layout guarantees

  /** The part of an argument the receiving side knows. */
  datatype Descriptor = Descriptor(kind: Kind, space: Space, size: Word)

  ghost function Descriptors(args: seq<Arg>): seq<Descriptor> {
    if args == [] then []
    else [Descriptor(args[0].kind, args[0].space, args[0].size)] + Descriptors(args[1..])
  }

  ghost function Payloads(args: seq<Arg>, wordSize: nat): seq<seq<byte>> {
    if args == [] then [] else [Payload(args[0], wordSize)] + Payloads(args[1..], wordSize)
  }

  ghost function Slice(pack: seq<byte>, at: nat, n: nat): seq<byte> {
    if at + n <= |pack| then pack[at..at + n] else []
  }

  /** Reads the arguments back from their descriptors alone. */
  ghost function Unpack(pack: seq<byte>, at: nat, ds: seq<Descriptor>, wordSize: nat): seq<seq<byte>>
    decreases |ds|
  {
    if ds == [] then []
    else
      match Slot(ds[0].kind, ds[0].space, ds[0].size, wordSize)
      case None => []
      case Some((m, n)) =>
        if m == 0 then []
        else [Slice(pack, AlignUp(at, m), n)] + Unpack(pack, AlignUp(at, m) + n, ds[1..], wordSize)
  }

  predicate EmptyValue(arg: Arg) {
    arg.space == Global && arg.kind == Value && arg.size == 0
  }

  /** An argument starts at the least aligned offset after what is there, behind zeros, and
      leaves the earlier bytes alone. */
  lemma ArgumentPlaced(pack: seq<byte>, arg: Arg, wordSize: nat)
    requires WellFormed(arg) && Supported(arg, wordSize) && !EmptyValue(arg)
    ensures Alignment(arg, wordSize) > 0
    ensures var m := Alignment(arg, wordSize);
            var o := AlignUp(|pack|, m);
            var p := Extended(pack, arg, wordSize);
            && |pack| <= o < |pack| + m && o % m == 0
            && |p| == o + |Payload(arg, wordSize)| && pack <= p && p[o..] == Payload(arg, wordSize)
            && forall i :: |pack| <= i < o ==> p[i] == 0
  {
    SlotMeaning(arg, wordSize);
    AlignUpLeast(|pack|, Alignment(arg, wordSize), 0);
  }

  /** The supported combinations. */
  lemma SupportedExactly(arg: Arg, wordSize: nat)
    ensures Supported(arg, wordSize) <==>
              || (arg.space == Global && (arg.kind == Address || arg.kind == Value))
              || (arg.space == Local && arg.kind == Address && (wordSize == 64 || wordSize == 32))
  {
  }

  /** `p` is `pack` with the bytes from `o` on appended: `o` the least multiple of `m` from the end of
      `pack` on, behind zeros. */
  ghost predicate AppendedAt(pack: seq<byte>, p: seq<byte>, o: int, m: nat) {
    && m > 0 && |pack| <= o < |pack| + m && o <= |p| && o % m == 0 && pack <= p
    && forall i :: |pack| <= i < o ==> p[i] == 0
  }

  /** A global address takes 8 bytes at a multiple of 8, little-endian. */
  lemma AddressPlaced(pack: seq<byte>, arg: Arg, wordSize: nat)
    requires arg.space == Global && arg.kind == Address
    ensures var p := Extended(pack, arg, wordSize);
            var o := |p| - 8;
            AppendedAt(pack, p, o, 8) && FromBytes(p[o..]) == arg.address && p[o] as int == arg.address % 256
  {
    ArgumentPlaced(pack, arg, wordSize);
    PayloadDecodes(arg, wordSize);
  }

  /** A local size takes 8 bytes at a multiple of 8 on 64-bit targets; on 32-bit targets its low 32 bits
      take 4 bytes at a multiple of 4. */
  lemma LocalSizePlaced(pack: seq<byte>, arg: Arg, wordSize: nat)
    requires arg.space == Local && arg.kind == Address && (wordSize == 64 || wordSize == 32)
    ensures var p := Extended(pack, arg, wordSize);
            var n := if wordSize == 64 then 8 else 4;
            var o := |p| - n;
            && AppendedAt(pack, p, o, n) && p[o] as int == arg.size % 256
            && FromBytes(p[o..]) == if wordSize == 64 then arg.size else arg.size % 4294967296
  {
    ArgumentPlaced(pack, arg, wordSize);
    PayloadDecodes(arg, wordSize);
    if wordSize == 32 {
      LowByte(arg.size);
    }
  }

  lemma LowByte(v: nat)
    ensures v % 4294967296 % 256 == v % 256
  {
    var q, r := v / 4294967296, v % 4294967296;
    ModUnique(v, 256, 16777216 * q + r / 256, r % 256);
  }

  /** A value takes its bytes at a multiple of the least power of two not below its size. */
  lemma ValuePlaced(pack: seq<byte>, arg: Arg, wordSize: nat, m: nat)
    requires WellFormed(arg) && arg.space == Global && arg.kind == Value && arg.size > 0
    requires IsPow2(m) && arg.size <= m < 2 * arg.size
    ensures var p := Extended(pack, arg, wordSize);
            var o := |p| - arg.size;
            AppendedAt(pack, p, o, m) && p[o..] == arg.pod
  {
    ArgumentPlaced(pack, arg, wordSize);
    OnlyPower(arg.size, m);
  }

  lemma OnlyPower(size: Word, m: nat)
    requires 0 < size <= Pow2(63) && IsPow2(m) && size <= m < 2 * size
    ensures NaturalAlignment(size) == m
  {
    var k: nat :| m == Pow2(k);
    if k > 0 {
      assert Pow2(k) == 2 * Pow2(k - 1);
    }
    LeastPower2Is(size, k);
    Pow2Of64();
    LeastPower2Meaning(size, 63);
  }

  /** Earlier bytes survive exactly unless the argument is a value of size 0 and the pack is
      not empty: such an argument empties the pack. */
  lemma EarlierBytesKept(pack: seq<byte>, arg: Arg, wordSize: nat)
    requires WellFormed(arg) && Supported(arg, wordSize)
    ensures pack <= Extended(pack, arg, wordSize) <==> pack == [] || !EmptyValue(arg)
  {
    SlotMeaning(arg, wordSize);
    if !EmptyValue(arg) {
      ArgumentPlaced(pack, arg, wordSize);
    }
  }

  lemma SlicePrefix(p: seq<byte>, q: seq<byte>, o: nat, bytes: seq<byte>)
    requires p <= q && o <= |p| && p[o..] == bytes
    ensures Slice(q, o, |bytes|) == bytes
  {
    assert q[o..|p|] == p[o..];
  }

  lemma UnpackFirst(pack: seq<byte>, at: nat, args: seq<Arg>, wordSize: nat)
    requires args != [] && Supported(args[0], wordSize) && Alignment(args[0], wordSize) > 0
    ensures var n := Slot(args[0].kind, args[0].space, args[0].size, wordSize).value.1;
            var o := AlignUp(at, Alignment(args[0], wordSize));
            Unpack(pack, at, Descriptors(args), wordSize)
            == [Slice(pack, o, n)] + Unpack(pack, o + n, Descriptors(args[1..]), wordSize)
  {
    assert Descriptors(args)[1..] == Descriptors(args[1..]);
  }

  /** Unpacking by the descriptors recovers the bytes of every argument. */
  lemma {:induction false} UnpackUndoesPack(pack: seq<byte>, args: seq<Arg>, wordSize: nat)
    requires Packable(pack, args, wordSize) && PackFrom(pack, args, wordSize).Some?
    requires forall i :: 0 <= i < |args| ==> !EmptyValue(args[i])
    ensures pack <= PackFrom(pack, args, wordSize).value
    ensures Unpack(PackFrom(pack, args, wordSize).value, |pack|, Descriptors(args), wordSize) == Payloads(args, wordSize)
    decreases |args|
  {
    if args != [] {
      var arg, next := args[0], Extended(pack, args[0], wordSize);
      SlotMeaning(arg, wordSize);
      ArgumentPlaced(pack, arg, wordSize);
      UnpackUndoesPack(next, args[1..], wordSize);
      var final := PackFrom(next, args[1..], wordSize).value;
      assert PackFrom(pack, args, wordSize).value == final;
      var o := AlignUp(|pack|, Alignment(arg, wordSize));
      SlicePrefix(next, final, o, Payload(arg, wordSize));
      UnpackFirst(final, |pack|, args, wordSize);
    }
  }

  /** The recovered bytes decode to the address, the value, or the local size; a 32-bit target
      sees the local size modulo 2^32. */
  lemma PayloadDecodes(arg: Arg, wordSize: nat)
    requires Supported(arg, wordSize)
    ensures arg.space == Global && arg.kind == Address ==> FromBytes(Payload(arg, wordSize)) == arg.address
    ensures arg.space == Global && arg.kind == Value ==> Payload(arg, wordSize) == arg.pod
    ensures arg.space == Local ==>
              FromBytes(Payload(arg, wordSize)) == if wordSize == 64 then arg.size else arg.size % 0x1_0000_0000
  {
    Pow2Of64();
    Pow2Of32();
    if arg.space == Global && arg.kind == Address {
      BytesRoundTrip(arg.address, 8);
    } else if arg.space == Local && wordSize == 64 {
      BytesRoundTrip(arg.size, 8);
    } else if arg.space == Local {
      BytesRoundTrip(arg.size % 0x1_0000_0000, 4);
    }
  }

  lemma Pow2Of32()
    ensures Pow2(32) == 0x1_0000_0000
  {
    assert Pow2(8) == 256;
    Pow2Add(8, 8);
    Pow2Add(16, 16);
  }
}
