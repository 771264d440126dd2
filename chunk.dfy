/**
 * The chunk header of allocator.h: its byte layout on an LP64 target, the
 * payload-to-header arithmetic of `get_header` and the mapping size of
 * `allocSize`. Addresses are plain integers.
 */
module ChunkHeader {
  import opened Wrappers

  type Addr = int

  /** One header record as the engine reads and writes it. `size` is the
      payload capacity in bytes; `next` links the chunk into whichever list
      owns it. The payload itself is not modelled, only where it starts. */
  datatype Chunk = Chunk(size: nat, used: bool, next: Option<Addr>)

  /** A data member of a C++ class: its width and its alignment, in bytes. */
  datatype Member = Member(width: nat, alignment: nat)

  const SizeMember := Member(8, 8)   // std::size_t size
  const UsedMember := Member(1, 1)   // bool used
  const NextMember := Member(8, 8)   // Chunk* next
  const DataMember := Member(8, 8)   // intptr_t data[1]

  /** The members of `Chunk` in declaration order. */
  const ChunkMembers := [SizeMember, UsedMember, NextMember, DataMember]

  ghost predicate WellAligned(ms: seq<Member>)
  {
    forall i :: 0 <= i < |ms| ==> ms[i].alignment > 0
  }

  /** The least multiple of `a` that is at least `n`. */
  function RoundUp(n: nat, a: nat): (r: nat)
    requires a > 0
    ensures n <= r < n + a && r % a == 0
  {
    if n % a == 0 then n
    else
      PastRemainder(n, a);
      n + (a - n % a)
  }

  /** Adding what `n` lacks of the next multiple of `a` reaches it. */
  lemma PastRemainder(n: nat, a: nat)
    requires a > 0
    ensures (n + (a - n % a)) % a == 0
  {
    var q := n / a;
    assert n + (a - n % a) == a * q + a == a * (q + 1);
    MultipleMod(q + 1, a);
  }

  /** A multiple of `a` leaves no remainder. */
  lemma MultipleMod(k: nat, a: nat)
    requires a > 0
    ensures (a * k) % a == 0
  {
    var d, m := (a * k) / a, (a * k) % a;
    assert a * k == a * d + m;
    assert a * (k - d) == m;
    ScaledBounds(a, k - d);
  }

  /** A nonzero multiple of `a` is at least `a` away from zero. */
  lemma ScaledBounds(a: nat, e: int)
    requires a > 0
    ensures e >= 1 ==> a * e >= a
    ensures e <= -1 ==> a * e + a <= 0
  {
  }

  /** Offsets of the members `ms` placed one after another from byte `at`,
      each at the next multiple of its alignment. */
  function Offsets(ms: seq<Member>, at: nat): (r: seq<nat>)
    requires WellAligned(ms)
    ensures |r| == |ms|
    ensures forall i :: 0 <= i < |ms| ==> at <= r[i]
    ensures forall i :: 0 <= i < |ms| - 1 ==> r[i] + ms[i].width <= r[i + 1]
    ensures forall i :: 0 <= i < |ms| ==> r[i] % ms[i].alignment == 0
    decreases |ms|
  {
    if ms == [] then []
    else
      var o := RoundUp(at, ms[0].alignment);
      [o] + Offsets(ms[1..], o + ms[0].width)
  }

  /** The byte just past the last member laid out from `at`. */
  function End(ms: seq<Member>, at: nat): nat
    requires WellAligned(ms)
    decreases |ms|
  {
    if ms == [] then at
    else End(ms[1..], RoundUp(at, ms[0].alignment) + ms[0].width)
  }

  function MaxAlignment(ms: seq<Member>): nat
    decreases |ms|
  {
    if ms == [] then 1
    else if ms[0].alignment > MaxAlignment(ms[1..]) then ms[0].alignment
    else MaxAlignment(ms[1..])
  }

  /** `sizeof` of a class with members `ms`: the end of the last member,
      padded to the strictest alignment. */
  function SizeOf(ms: seq<Member>): nat
    requires WellAligned(ms)
  {
    RoundUp(End(ms, 0), if MaxAlignment(ms) > 0 then MaxAlignment(ms) else 1)
  }

  /** The offset of `data` inside a `Chunk`: where the payload starts. */
  function DataOffset(): nat
  {
    Offsets(ChunkMembers, 0)[3]
  }

  lemma MemberSuffixes()
    ensures ChunkMembers[1..] == [UsedMember, NextMember, DataMember]
    ensures ChunkMembers[2..] == [NextMember, DataMember]
    ensures ChunkMembers[3..] == [DataMember]
  {
  }

  lemma ChunkOffsets()
    ensures Offsets(ChunkMembers, 0) == [0, 8, 16, 24]
  {
    MemberSuffixes();
    var tail1, tail2, tail3 := ChunkMembers[1..], ChunkMembers[2..], ChunkMembers[3..];
    assert tail1[1..] == tail2 && tail2[1..] == tail3 && tail3[1..] == [];
    assert RoundUp(24, 8) == 24;
    assert Offsets(tail3, 24) == [24];
    assert RoundUp(9, 8) == 16;
    assert Offsets(tail2, 9) == [16, 24];
    assert RoundUp(8, 1) == 8;
    assert Offsets(tail1, 8) == [8, 16, 24];
  }

  lemma ChunkSize()
    ensures SizeOf(ChunkMembers) == 32
  {
    MemberSuffixes();
    var tail1, tail2, tail3 := ChunkMembers[1..], ChunkMembers[2..], ChunkMembers[3..];
    assert tail1[1..] == tail2 && tail2[1..] == tail3 && tail3[1..] == [];
    assert End(tail3, 24) == 32;
    assert End(tail2, 9) == 32;
    assert End(tail1, 8) == 32;
    assert MaxAlignment(tail3) == 8;
    assert tail2[0] == NextMember && MaxAlignment(tail2) == 8;
    assert tail1[0] == UsedMember && MaxAlignment(tail1) == 8;
    assert MaxAlignment(ChunkMembers) == 8;
  }

  /** The header is `size`, `used` and `next` at the offsets below, and
      `data` follows `next` with no gap; `Chunk` has no trailing padding,
      so `sizeof(Chunk)` ends exactly where the first payload word ends. */
  lemma ChunkLayout()
    ensures Offsets(ChunkMembers, 0) == [0, 8, 16, 24]
    ensures DataOffset() == Offsets(ChunkMembers, 0)[2] + NextMember.width
    ensures SizeOf(ChunkMembers) == DataOffset() + DataMember.width == 32
  {
    ChunkOffsets();
    ChunkSize();
  }

  /** The address of the `data` member of the chunk whose header is at `h`. */
  function PayloadAddress(h: Addr): Addr
  {
    h + DataOffset()
  }

  /** `get_header`: step back from a payload pointer by `sizeof(Chunk)`
      minus the one `data` word inside the header. It lands on the header
      of the chunk whose `data` member is at `p`. */
  function GetHeader(p: Addr): (h: Addr)
    ensures PayloadAddress(h) == p
  {
    ChunkLayout();
    p + DataMember.width - SizeOf(ChunkMembers)
  }

  /** Locating the payload of a header and recovering the header from that
      payload give back the header, for every address. */
  lemma HeaderPayloadRoundTrip(h: Addr)
    ensures GetHeader(PayloadAddress(h)) == h
  {
  }

  /** `allocSize`: the bytes mapped for a chunk with an `n`-byte payload.
      The block starting at a header ends exactly where the payload of `n`
      bytes ends. */
  function AllocSize(n: nat): (r: nat)
    ensures forall h: Addr {:trigger PayloadAddress(h)} :: h + r == PayloadAddress(h) + n
  {
    ChunkLayout();
    n + SizeOf(ChunkMembers) - DataMember.width
  }
}
