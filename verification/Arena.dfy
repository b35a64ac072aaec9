/** The request arena: a list of chunks that hand out blocks, one retained chunk, and the bounds on both. */
module Arena {
  import opened Bytes

  const ARENA_ALIGN := 16
  const ARENA_MIN_SIZE := 4096
  const ARENA_KEEP_MAX := 64 * 1024
  const SIZE_MAX := 0xFFFF_FFFF_FFFF_FFFF

  function Aligned(n: nat): (want: nat)
    ensures n <= want < n + ARENA_ALIGN && want % ARENA_ALIGN == 0
  {
    (n + ARENA_ALIGN - 1) / ARENA_ALIGN * ARENA_ALIGN
  }

  // ----- the space bound, on capacities and uses alone; the newest chunk comes first -----

  function Sum(s: seq<nat>): nat { if s == [] then 0 else s[0] + Sum(s[1..]) }

  /** A chunk that is not the newest was left because it could not hold the first block of the next one. */
  ghost predicate Packed(caps: seq<nat>, uses: seq<nat>) {
    && |caps| == |uses| && (forall j :: 0 <= j < |caps| ==> uses[j] <= caps[j])
    && (forall j :: 1 <= j < |caps| ==> caps[j] < uses[j] + uses[j - 1])
    && (|caps| > 0 ==> caps[0] <= 2 * uses[0] + ARENA_KEEP_MAX)
  }

  lemma {:induction false} TailBound(caps: seq<nat>, uses: seq<nat>)
    requires |caps| == |uses| > 0 && forall j :: 1 <= j < |caps| ==> caps[j] < uses[j] + uses[j - 1]
    ensures Sum(caps) <= caps[0] + 2 * Sum(uses) - uses[0]
    decreases |caps|
  {
    if |caps| > 1 {
      TailBound(caps[1..], uses[1..]);
      assert caps[1] < uses[1] + uses[0];
    } else {
      assert caps[1..] == [] && uses[1..] == [];
    }
  }

  /** Listed chunks take at most three times the space in use, and 64 KiB. */
  lemma SpaceBound(caps: seq<nat>, uses: seq<nat>)
    requires Packed(caps, uses)
    ensures Sum(caps) <= 3 * Sum(uses) + ARENA_KEEP_MAX
  {
    if |caps| > 0 { TailBound(caps, uses); }
  }

  lemma PackedFirst(caps: seq<nat>, uses: seq<nat>, more: nat)
    requires Packed(caps, uses) && |caps| > 0 && uses[0] + more <= caps[0]
    ensures Packed(caps, uses[0 := uses[0] + more]) && Sum(uses[0 := uses[0] + more]) == Sum(uses) + more
  {
    assert uses[0 := uses[0] + more][1..] == uses[1..];
  }

  lemma PackedNew(caps: seq<nat>, uses: seq<nat>, cap: nat, want: nat)
    requires Packed(caps, uses) && want <= cap <= 2 * want + ARENA_KEEP_MAX
    requires |caps| > 0 ==> want > caps[0] - uses[0]
    ensures Packed([cap] + caps, [want] + uses) && Sum([want] + uses) == Sum(uses) + want
  {
    var cs, us := [cap] + caps, [want] + uses;
    forall j | 1 <= j < |cs| ensures cs[j] < us[j] + us[j - 1] {
      assert cs[j] == caps[j - 1] && us[j] == uses[j - 1];
      if j > 1 { assert us[j - 1] == uses[j - 2]; }
    }
    assert us[1..] == uses;
  }

  /** The capacity of a new chunk: the doubling loop of arena_alloc. */
  method ChunkCap(want: nat, max: nat) returns (cap: nat)
    ensures want <= cap && (cap == ARENA_MIN_SIZE || cap < 2 * want || cap == want)
  {
    cap := ARENA_MIN_SIZE;
    while cap < want
      invariant cap == ARENA_MIN_SIZE || cap < 2 * want
      invariant cap >= ARENA_MIN_SIZE
      decreases want - cap
    {
      if cap > max / 2 {
        cap := want;
        break;
      }
      cap := cap * 2;
    }
  }

  // ----- chunks and blocks -----

  /** A chunk: its memory, how much of it is in use, and how much has ever been handed out. */
  datatype ArenaChunk = ArenaChunk(mem: array<byte>, used: nat, ghost high: nat)

  datatype Block = Block(mem: array<byte>, at: nat, size: nat)

  ghost predicate Disjoint(a: Block, b: Block) {
    a.mem != b.mem || a.at + a.size <= b.at || b.at + b.size <= a.at
  }

  ghost function Caps(cs: seq<ArenaChunk>): (s: seq<nat>)
    ensures |s| == |cs| && forall i :: 0 <= i < |cs| ==> s[i] == cs[i].mem.Length
  {
    seq(|cs|, i requires 0 <= i < |cs| => cs[i].mem.Length)
  }

  ghost function Uses(cs: seq<ArenaChunk>): (s: seq<nat>)
    ensures |s| == |cs| && forall i :: 0 <= i < |cs| ==> s[i] == cs[i].used
  {
    seq(|cs|, i requires 0 <= i < |cs| => cs[i].used)
  }

  /** No memory is listed twice. */
  ghost predicate Apart(cs: seq<ArenaChunk>) { forall i, j :: 0 <= i < j < |cs| ==> cs[i].mem != cs[j].mem }

  /** Live blocks are aligned and inside the used part of a listed chunk ... */
  ghost predicate Inside(b: Block, cs: seq<ArenaChunk>) {
    && b.at % ARENA_ALIGN == 0 && b.size > 0
    && exists i :: 0 <= i < |cs| && cs[i].mem == b.mem && b.at + b.size <= cs[i].used
  }

  ghost predicate AllInside(bs: seq<Block>, cs: seq<ArenaChunk>) {
    && (forall i :: 0 <= i < |bs| ==> Inside(bs[i], cs))
    && forall j :: 0 <= j < |cs| ==> cs[j].used % ARENA_ALIGN == 0
  }

  /** ... and pairwise disjoint. */
  ghost predicate AllDisjoint(bs: seq<Block>) { forall i, j :: 0 <= i < j < |bs| ==> Disjoint(bs[i], bs[j]) }

  /** Bytes that were handed out once and are not in use now are zero. */
  ghost predicate Clean(c: ArenaChunk)
    reads c.mem
  {
    c.used <= c.high <= c.mem.Length && forall k :: c.used <= k < c.high ==> c.mem[k] == 0
  }

  ghost function Memory(cs: seq<ArenaChunk>): set<array<byte>> { set i | 0 <= i < |cs| :: cs[i].mem }

  /** A block at the end of the first chunk is disjoint from every other. */
  lemma NextBlock(bs: seq<Block>, cs: seq<ArenaChunk>, cs': seq<ArenaChunk>, want: nat)
    requires Apart(cs) && AllInside(bs, cs) && AllDisjoint(bs) && cs != [] && want > 0 && want % ARENA_ALIGN == 0
    requires |cs'| == |cs| && cs'[1..] == cs[1..] && cs'[0].mem == cs[0].mem && cs'[0].used == cs[0].used + want
    ensures var b := Block(cs[0].mem, cs[0].used, want);
            AllInside(bs + [b], cs') && AllDisjoint(bs + [b]) && Apart(cs')
  {
    var b := Block(cs[0].mem, cs[0].used, want);
    assert forall j :: 1 <= j < |cs| ==> cs'[j] == cs'[1..][j - 1] == cs[1..][j - 1] == cs[j];
    forall i | 0 <= i < |bs| ensures Disjoint(bs[i], b) && Inside(bs[i], cs') {
      assert Inside(bs[i], cs);
      var k :| 0 <= k < |cs| && cs[k].mem == bs[i].mem && bs[i].at + bs[i].size <= cs[k].used;
      if k > 0 { assert cs[0].mem != cs[k].mem; }
      assert cs'[k].mem == bs[i].mem && bs[i].at + bs[i].size <= cs'[k].used;
    }
    assert Inside(b, cs') by { assert cs'[0].mem == b.mem; }
  }

  lemma NewChunk(bs: seq<Block>, cs: seq<ArenaChunk>, c: ArenaChunk)
    requires Apart(cs) && AllInside(bs, cs) && c.used == 0 && forall i :: 0 <= i < |cs| ==> cs[i].mem != c.mem
    ensures Apart([c] + cs) && AllInside(bs, [c] + cs)
  {
    var cs' := [c] + cs;
    forall i | 0 <= i < |bs| ensures Inside(bs[i], cs') {
      assert Inside(bs[i], cs);
      var k :| 0 <= k < |cs| && cs[k].mem == bs[i].mem && bs[i].at + bs[i].size <= cs[k].used;
      assert cs'[k + 1].mem == bs[i].mem;
    }
  }

  lemma NoBlocks()
    ensures AllInside([], []) && AllDisjoint([]) && Apart([]) && Packed([], []) && Sum([]) == 0
  {
  }

  /** secure_zero. */
  method Zero(mem: array<byte>, n: nat)
    requires n <= mem.Length
    modifies mem
    ensures forall k :: 0 <= k < mem.Length ==> mem[k] == if k < n then 0 else old(mem[k])
  {
    var i := 0;
    while i < n
      invariant 0 <= i <= n
      invariant forall k :: 0 <= k < mem.Length ==> mem[k] == if k < i then 0 else old(mem[k])
    {
      mem[i] := 0;
      i := i + 1;
    }
  }

  class Arena {
    /** The listed chunks, newest first. */
    var chunks: seq<ArenaChunk>
    var spare: Option<ArenaChunk>
    var used: nat
    var max: nat
    var peak: nat
    var refusals: nat
    /** The blocks handed out since the last reset. */
    ghost var blocks: seq<Block>

    ghost predicate Books()
      reads this
    {
      Packed(Caps(chunks), Uses(chunks)) && used == Sum(Uses(chunks)) && used <= max && used <= peak
    }

    ghost predicate Placed()
      reads this
    {
      && Apart(chunks) && AllInside(blocks, chunks) && AllDisjoint(blocks)
      && (spare.Some? ==> forall i :: 0 <= i < |chunks| ==> chunks[i].mem != spare.value.mem)
    }

    ghost predicate Zeroed()
      reads this, Memory(chunks), if spare.Some? then {spare.value.mem} else {}
    {
      && (forall i :: 0 <= i < |chunks| ==> Clean(chunks[i]))
      && (spare.Some? ==> Clean(spare.value) && spare.value.used == 0 && spare.value.mem.Length <= ARENA_KEEP_MAX)
    }

    ghost predicate Valid()
      reads this, Memory(chunks), if spare.Some? then {spare.value.mem} else {}
    {
      Books() && Placed() && Zeroed()
    }

    /** arena_init, with max at least ARENA_MIN_SIZE. */
    constructor (max: nat)
      requires max >= ARENA_MIN_SIZE
      ensures Valid() && chunks == [] && blocks == [] && spare == None && used == 0 && this.max == max
    {
      chunks, spare, used, this.max, peak, refusals, blocks := [], None, 0, max, 0, 0, [];
    }

    /** In every state the space taken is bounded by the space in use, which is bounded by max. */
    lemma Bounded()
      requires Valid()
      ensures used <= max && used == Sum(Uses(chunks)) && Sum(Caps(chunks)) <= 3 * used + ARENA_KEEP_MAX
    {
      SpaceBound(Caps(chunks), Uses(chunks));
    }

    /** Handing out the next block of the newest chunk. */
    method Bump(want: nat) returns (b: Block)
      requires Valid() && chunks != [] && want > 0 && want % ARENA_ALIGN == 0
      requires want <= chunks[0].mem.Length - chunks[0].used && want <= max - used
      modifies this
      ensures Valid() && spare == old(spare) && max == old(max) && |chunks| == |old(chunks)| && refusals == old(refusals)
      ensures b == Block(old(chunks[0].mem), old(chunks[0].used), want)
      ensures blocks == old(blocks) + [b] && used == old(used) + want
    {
      hide Packed, Sum, Apart, AllInside, AllDisjoint, Caps, Uses;
      var c := chunks[0];
      b := Block(c.mem, c.used, want);
      ghost var was := chunks;
      chunks := chunks[0 := ArenaChunk(c.mem, c.used + want, if c.high < c.used + want then c.used + want else c.high)];
      BooksFirst(was, chunks, want);
      NextBlock(blocks, was, chunks, want);
      used := used + want;
      if used > peak { peak := used; }
      blocks := blocks + [b];
    }

    /** A chunk that joins the list together with its first block. */
    method Push(c: ArenaChunk, want: nat) returns (b: Block)
      requires Valid() && want > 0 && want % ARENA_ALIGN == 0 && want <= max - used
      requires c.used == 0 && Clean(c) && want <= c.mem.Length <= 2 * want + ARENA_KEEP_MAX
      requires chunks != [] ==> want > chunks[0].mem.Length - chunks[0].used
      requires (forall i :: 0 <= i < |chunks| ==> chunks[i].mem != c.mem) && (spare.Some? ==> spare.value.mem != c.mem)
      modifies this
      ensures Valid() && spare == old(spare) && max == old(max) && refusals == old(refusals)
      ensures b == Block(c.mem, 0, want) && blocks == old(blocks) + [b] && used == old(used) + want
      ensures |chunks| == |old(chunks)| + 1 && chunks[0].mem == c.mem && chunks[1..] == old(chunks)
    {
      hide Packed, Sum, Apart, AllInside, AllDisjoint, Caps, Uses;
      b := Block(c.mem, 0, want);
      ghost var was := [c] + chunks;
      NewChunk(blocks, chunks, c);
      chunks := [ArenaChunk(c.mem, want, if c.high < want then want else c.high)] + chunks;
      BooksNew(old(chunks), chunks[0], chunks);
      assert chunks[1..] == was[1..] == old(chunks);
      NextBlock(blocks, was, chunks, want);
      used := used + want;
      if used > peak { peak := used; }
      blocks := blocks + [b];
    }

    ghost predicate HeadFits(want: nat)
      reads this
    {
      chunks != [] && want <= chunks[0].mem.Length - chunks[0].used
    }

    ghost predicate SpareFits(want: nat)
      reads this
    {
      spare.Some? && spare.value.mem.Length >= want
    }

    /**
     arena_alloc; `granted` is whether chunk_new gets memory.  A block is handed out exactly when its size rounded up
     fits the limit and a chunk can be found for it.  No byte of memory changes.
     */
    method Alloc(n: nat, granted: bool) returns (r: Option<Block>)
      requires Valid()
      modifies this
      ensures Valid() && max == old(max)
      ensures r.Some? <==> && 0 < n <= SIZE_MAX - (ARENA_ALIGN - 1) && old(max) > 0 && Aligned(n) <= old(max - used)
                           && (old(HeadFits(Aligned(n))) || old(SpareFits(Aligned(n))) || granted)
      ensures r.Some? ==> blocks == old(blocks) + [r.value] && r.value.size == Aligned(n) && used == old(used) + Aligned(n)
      ensures r.None? ==> blocks == old(blocks) && chunks == old(chunks) && used == old(used) && spare == old(spare)
    {
      hide Packed, Sum, Apart, AllInside, AllDisjoint, Caps, Uses;
      if n == 0 || max == 0 { return None; }
      if n > SIZE_MAX - (ARENA_ALIGN - 1) {
        refusals := refusals + 1;
        return None;
      }
      var want := Aligned(n);
      if want > max - used {
        refusals := refusals + 1;
        return None;
      }
      if chunks != [] && want <= chunks[0].mem.Length - chunks[0].used {
        var b := Bump(want);
        return Some(b);
      }
      var cap := ChunkCap(want, max);
      if spare.Some? && spare.value.mem.Length >= want {
        var c := spare.value;
        spare := None;
        var b := Push(c, want);
        return Some(b);
      }
      if !granted {
        refusals := refusals + 1;
        return None;
      }
      var mem := new byte[cap];
      var b := Push(ArenaChunk(mem, 0, 0), want);
      return Some(b);
    }

    /** A handler writes into a block it was given. */
    method Write(b: Block, k: nat, x: byte)
      requires Valid() && b in blocks && k < b.size
      modifies b.mem
      ensures Valid()
    {
      hide Packed, Sum, AllDisjoint, Caps, Uses;
      InUse(b, k);
      b.mem[b.at + k] := x;
    }

    lemma InUse(b: Block, k: nat)
      requires Placed() && Zeroed() && b in blocks && k < b.size
      ensures b.at + k < b.mem.Length
      ensures forall i :: 0 <= i < |chunks| && chunks[i].mem == b.mem ==> b.at + k < chunks[i].used
      ensures spare.Some? ==> spare.value.mem != b.mem
    {
      var j :| 0 <= j < |blocks| && blocks[j] == b;
      assert Inside(blocks[j], chunks);
      var i :| 0 <= i < |chunks| && chunks[i].mem == b.mem && b.at + b.size <= chunks[i].used;
      assert Clean(chunks[i]);
      assert forall m :: 0 <= m < |chunks| && chunks[m].mem == b.mem ==> m == i;
    }

    /** arena_reset: every chunk is wiped, and the first that is small enough becomes the spare if there is none. */
    method Reset()
      requires Valid()
      modifies this, Memory(chunks)
      ensures Valid() && chunks == [] && blocks == [] && used == 0 && max == old(max)
      ensures spare.Some? ==> spare.value.mem.Length <= ARENA_KEEP_MAX
                              && forall k :: 0 <= k < spare.value.high ==> spare.value.mem[k] == 0
      ensures old(spare).Some? ==> spare == old(spare)
      ensures old(spare).None? && (exists i :: 0 <= i < |old(chunks)| && old(chunks)[i].mem.Length <= ARENA_KEEP_MAX) ==> spare.Some?
      ensures forall i :: 0 <= i < |old(chunks)| ==> forall k :: 0 <= k < old(chunks)[i].high ==> old(chunks)[i].mem[k] == 0
    {
      hide Packed, Sum, AllDisjoint, AllInside, Caps, Uses;
      var cs := chunks;
      var i := 0;
      while i < |cs|
        invariant 0 <= i <= |cs| && chunks == cs == old(chunks) && max == old(max)
        invariant forall j :: i <= j < |cs| ==> Clean(cs[j])
        invariant forall j :: 0 <= j < i ==> forall k :: 0 <= k < cs[j].high ==> cs[j].mem[k] == 0
        invariant spare.Some? ==> Clean(spare.value) && spare.value.used == 0 && spare.value.mem.Length <= ARENA_KEEP_MAX
        invariant spare.Some? ==> forall j :: i <= j < |cs| ==> cs[j].mem != spare.value.mem
        invariant if old(spare).Some? then spare == old(spare)
                  else (spare.Some? <==> exists j :: 0 <= j < i && cs[j].mem.Length <= ARENA_KEEP_MAX)
      {
        var c := cs[i];
        assert Clean(c);
        assert forall j :: 0 <= j < i ==> cs[j].mem != c.mem;
        if c.used > 0 { Zero(c.mem, c.used); }
        if spare.None? && c.mem.Length <= ARENA_KEEP_MAX { spare := Some(ArenaChunk(c.mem, 0, c.high)); }
        i := i + 1;
      }
      chunks, used, blocks := [], 0, [];
      NoBlocks();
      assert Caps([]) == [] && Uses([]) == [];
    }

    /** arena_free. */
    method Free()
      requires Valid()
      modifies this, Memory(chunks)
      ensures Valid() && chunks == [] && blocks == [] && used == 0 && spare == None && max == 0
    {
      Reset();
      spare, max := None, 0;
    }
  }

  lemma BooksFirst(was: seq<ArenaChunk>, now: seq<ArenaChunk>, want: nat)
    requires was != [] && |now| == |was| && now[1..] == was[1..] && now[0].mem == was[0].mem && now[0].used == was[0].used + want
    requires Packed(Caps(was), Uses(was)) && want <= was[0].mem.Length - was[0].used
    ensures Packed(Caps(now), Uses(now)) && Sum(Uses(now)) == Sum(Uses(was)) + want
  {
    hide Packed, Sum;
    assert forall j :: 1 <= j < |was| ==> now[j] == now[1..][j - 1] == was[1..][j - 1] == was[j];
    PackedFirst(Caps(was), Uses(was), want);
    assert Caps(now) == Caps(was);
    assert Uses(now) == Uses(was)[0 := was[0].used + want];
  }

  lemma BooksNew(was: seq<ArenaChunk>, c: ArenaChunk, now: seq<ArenaChunk>)
    requires Packed(Caps(was), Uses(was)) && c.used <= c.mem.Length <= 2 * c.used + ARENA_KEEP_MAX
    requires was != [] ==> c.used > was[0].mem.Length - was[0].used
    requires now == [c] + was
    ensures Packed(Caps(now), Uses(now)) && Sum(Uses(now)) == Sum(Uses(was)) + c.used
  {
    hide Packed, Sum;
    PackedNew(Caps(was), Uses(was), c.mem.Length, c.used);
    assert Caps(now) == [c.mem.Length] + Caps(was);
    assert Uses(now) == [c.used] + Uses(was);
  }
}
