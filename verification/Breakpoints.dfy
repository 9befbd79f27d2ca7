/** Memory breakpoints of the GDB server: trap words patched over a program image, behind the instruction cache. */
module Breakpoints {
  import opened MpHash
  import Icache

  const TRAP := 0x21000001

  const BP_MEMORY := 0
  const WP_ACCESS := 4

  type Memory = Icache.Memory

  datatype Reply = Ok | NotSupported | Error

  function ReplyTo(mtype: int): Reply {
    if mtype == BP_MEMORY then Ok else if 0 <= mtype <= WP_ACCESS then NotSupported else Error
  }

  // ---- The table and memory as values ----

  datatype Patched = Patched(entries: map<MpKey, int>, main: Memory)

  /** eval_direct32 and set_program32: unmapped and unaligned addresses read as zero and are not written. */
  function Read(main: Memory, addr: nat): int { if addr in main then main[addr] else 0 }

  function Write(main: Memory, addr: nat, value: int): Memory { if addr in main then main[addr := value] else main }

  function Insert(p: Patched, mtype: int, addr: nat): Patched {
    if mtype != BP_MEMORY then p
    else
      var key := MpKey(mtype, addr);
      Patched(if key in p.entries then p.entries else p.entries[key := Read(p.main, addr)], Write(p.main, addr, TRAP))
  }

  function Remove(p: Patched, mtype: int, addr: nat): Patched {
    var key := MpKey(mtype, addr);
    if mtype != BP_MEMORY || key !in p.entries then p
    else Patched(p.entries - {key}, Write(p.main, addr, p.entries[key]))
  }

  /** The image with a trap at every breakpoint. */
  function Trapped(image: Memory, at: set<nat>): (r: Memory)
    ensures r.Keys == image.Keys
  {
    map a | a in image :: if a in at then TRAP else image[a]
  }

  ghost function Addresses(entries: map<MpKey, int>): set<nat> { set key | key in entries :: key.addr }

  /** Memory is the image with traps at exactly the table's addresses, and the table remembers what they replaced. */
  ghost predicate Over(p: Patched, image: Memory) {
    p.main == Trapped(image, Addresses(p.entries)) &&
    forall key :: key in p.entries ==> key.mtype == BP_MEMORY && p.entries[key] == Read(image, key.addr)
  }

  lemma InsertOver(p: Patched, image: Memory, mtype: int, addr: nat)
    requires Over(p, image)
    ensures Over(Insert(p, mtype, addr), image)
    ensures Insert(p, mtype, addr).entries.Keys == p.entries.Keys + if mtype == BP_MEMORY then {MpKey(mtype, addr)}
      else {}
  {
    if mtype == BP_MEMORY {
      var key := MpKey(mtype, addr);
      var q := Insert(p, mtype, addr);
      InAddresses(p.entries, addr);
      forall a | a in image
        ensures a in Addresses(q.entries) <==> a == addr || a in Addresses(p.entries)
      {
        InAddresses(p.entries, a);
        InAddresses(q.entries, a);
        assert MpKey(BP_MEMORY, a) in q.entries <==> a == addr || MpKey(BP_MEMORY, a) in p.entries;
      }
    }
  }

  lemma RemoveOver(p: Patched, image: Memory, mtype: int, addr: nat)
    requires Over(p, image)
    ensures Over(Remove(p, mtype, addr), image)
    ensures Remove(p, mtype, addr).entries.Keys == p.entries.Keys - if mtype == BP_MEMORY then {MpKey(mtype, addr)}
      else {}
  {
    var key := MpKey(mtype, addr);
    if mtype == BP_MEMORY && key in p.entries {
      var q := Remove(p, mtype, addr);
      forall a | a in image
        ensures a in Addresses(q.entries) <==> a != addr && a in Addresses(p.entries)
      {
        InAddresses(p.entries, a);
        InAddresses(q.entries, a);
        assert MpKey(BP_MEMORY, a) in q.entries <==> a != addr && MpKey(BP_MEMORY, a) in p.entries;
      }
    }
  }

  lemma InAddresses(entries: map<MpKey, int>, a: nat)
    requires forall key :: key in entries ==> key.mtype == BP_MEMORY
    ensures a in Addresses(entries) <==> MpKey(BP_MEMORY, a) in entries
  {
  }

  datatype Request = InsertAt(mtype: int, addr: nat) | RemoveAt(mtype: int, addr: nat)

  function Serve(p: Patched, request: Request): Patched {
    match request
    case InsertAt(mtype, addr) => Insert(p, mtype, addr)
    case RemoveAt(mtype, addr) => Remove(p, mtype, addr)
  }

  function ServeAll(p: Patched, requests: seq<Request>): Patched {
    if requests == [] then p else Serve(ServeAll(p, requests[..|requests| - 1]), requests[|requests| - 1])
  }

  /** The breakpoints that stand after the requests: inserted, and not removed since. */
  function Standing(requests: seq<Request>): (s: set<nat>) {
    if requests == [] then {}
    else
      var before := Standing(requests[..|requests| - 1]);
      match requests[|requests| - 1]
      case InsertAt(mtype, addr) => if mtype == BP_MEMORY then before + {addr} else before
      case RemoveAt(mtype, addr) => if mtype == BP_MEMORY then before - {addr} else before
  }

  /** Whatever the requests, repeated ones included, memory is the image with a trap at exactly the breakpoints that
      stand; when none stands it is the image. */
  lemma {:induction false} RunTraps(image: Memory, requests: seq<Request>)
    ensures var p := ServeAll(Patched(map[], image), requests);
      p.main == Trapped(image, Standing(requests)) && (Standing(requests) == {} ==> p.main == image) &&
      Over(p, image) && Addresses(p.entries) == Standing(requests)
  {
    hide Over, Insert, Remove, Trapped, Addresses;
    if requests == [] {
      NothingTrapped(image);
    } else {
      var before, last := requests[..|requests| - 1], requests[|requests| - 1];
      RunTraps(image, before);
      var p := ServeAll(Patched(map[], image), before);
      InsertOver(p, image, last.mtype, last.addr);
      RemoveOver(p, image, last.mtype, last.addr);
      var q := ServeAll(Patched(map[], image), requests);
      OverTraps(p, image);
      OverTraps(q, image);
      StandingStep(p, q, Addresses(p.entries), last);
      NothingTrapped(image);
    }
  }

  lemma NothingTrapped(image: Memory)
    ensures Trapped(image, {}) == image && Over(Patched(map[], image), image) && Addresses(map[]) == {}
  {
    assert Trapped(image, {}) == image;
  }

  lemma OverTraps(p: Patched, image: Memory)
    requires Over(p, image)
    ensures p.main == Trapped(image, Addresses(p.entries))
    ensures forall key :: key in p.entries ==> key.mtype == BP_MEMORY
  {
  }

  lemma StandingStep(p: Patched, q: Patched, at: set<nat>, request: Request)
    requires at == Addresses(p.entries)
    requires forall key :: key in p.entries ==> key.mtype == BP_MEMORY
    requires forall key :: key in q.entries ==> key.mtype == BP_MEMORY
    requires request.mtype != BP_MEMORY ==> q.entries.Keys == p.entries.Keys
    requires request.mtype == BP_MEMORY && request.InsertAt? ==>
      q.entries.Keys == p.entries.Keys + {MpKey(BP_MEMORY, request.addr)}
    requires request.mtype == BP_MEMORY && request.RemoveAt? ==>
      q.entries.Keys == p.entries.Keys - {MpKey(BP_MEMORY, request.addr)}
    ensures Addresses(q.entries) ==
      if request.mtype != BP_MEMORY then at else if request.InsertAt? then at + {request.addr} else at - {request.addr}
  {
  }

  // ---- What the processor sees meanwhile ----

  /** Requests of the client, and what the processor does between them. */
  datatype Event =
    | Asked(request: Request)
    | FetchedAt(addr: nat, ci: bool)
    | InvalidatedAt(addr: nat)
    | Switched(on: bool)

  /** Addresses have 32 bits, and instructions are aligned. */
  predicate Proper(e: Event) {
    match e
    case Asked(request) => request.addr < Icache.Pow2(Icache.ADDRESS_BITS)
    case FetchedAt(addr, _) => addr < Icache.Pow2(Icache.ADDRESS_BITS) && addr % 4 == 0
    case InvalidatedAt(addr) => addr < Icache.Pow2(Icache.ADDRESS_BITS)
    case Switched(_) => true
  }

  function Requests(events: seq<Event>): seq<Request> {
    if events == [] then []
    else
      var last := events[|events| - 1];
      Requests(events[..|events| - 1]) + if last.Asked? then [last.request] else []
  }

  /** Is the cache on afterwards? */
  function IsOn(events: seq<Event>, on: bool): bool {
    if events == [] then on
    else
      var last := events[|events| - 1];
      if last.Switched? then last.on else IsOn(events[..|events| - 1], on)
  }

  /** The words that the fetches should give: the image with a trap at every breakpoint that stands at the time.  A
      fetch through the cache gives 0 if a word of its block is not mapped. */
  function Words(image: Memory, events: seq<Event>, present: bool, on: bool, blockBits: nat): seq<int> {
    if events == [] then []
    else
      var before, last := events[..|events| - 1], events[|events| - 1];
      Words(image, before, present, on, blockBits) +
      if !last.FetchedAt? then []
      else if !present || !IsOn(before, on) || last.ci || Icache.BlockMapped(image, last.addr, blockBits) then
        [Read(Trapped(image, Standing(Requests(before))), last.addr)]
      else [0]
  }

  lemma MappedAlike(a: Memory, b: Memory, addr: nat, blockBits: nat)
    requires a.Keys == b.Keys
    ensures Icache.BlockMapped(a, addr, blockBits) <==> Icache.BlockMapped(b, addr, blockBits)
  {
    hide Icache.WordAddress, Icache.WordsPerBlock;
    assert forall x :: x in a <==> x in b;
  }

  // ---- The server's state ----

  class Target {
    const table: Table
    const cache: Icache.InsnCache
    var main: Memory
    ghost const image: Memory

    ghost predicate Valid()
      reads this, table, table.heads, table.repr, cache.tags, cache.lrus, cache.lines
    {
      table.Valid() && cache.Configured() && Over(Patched(table.entries, main), image) &&
      (cache.present ==> cache.Coherent(main))
    }

    constructor (main: Memory, setBits: nat, blockBits: nat, nways: nat, ustates: nat, present: bool)
      requires setBits <= 10 && (blockBits == 4 || blockBits == 5) && 0 < nways && 2 <= ustates <= 4
      ensures Valid() && this.main == main == image && table.entries == map[]
    {
      table := new Table();
      cache := new Icache.InsnCache(setBits, blockBits, nways, ustates, present);
      this.main := main;
      image := main;
      new;
      NothingTrapped(image);
    }

    /** rsp_insert_matchpoint. */
    method InsertMatchpoint(mtype: int, addr: nat) returns (reply: Reply)
      requires Valid() && addr < Icache.Pow2(Icache.ADDRESS_BITS)
      modifies this, table, table.heads, cache.tags, cache.lrus
      ensures Valid() && fresh(table.repr - old(table.repr))
      ensures Patched(table.entries, main) == Insert(old(Patched(table.entries, main)), mtype, addr)
      ensures reply == if mtype == 0 then Ok else if 1 <= mtype <= 4 then NotSupported else Error
    {
      hide Over, Icache.InsnCache.Configured, Icache.InsnCache.Coherent, Icache.Pow2;
      InsertOver(Patched(table.entries, main), image, mtype, addr);
      if mtype != BP_MEMORY {
        return ReplyTo(mtype);
      }
      table.Add(MpKey(mtype, addr), Read(main, addr));
      WriteProgram(addr, TRAP);
      reply := Ok;
    }

    /** ic_inv and set_program32. */
    method WriteProgram(addr: nat, value: int)
      requires cache.Configured() && addr < Icache.Pow2(Icache.ADDRESS_BITS) && (cache.present ==> cache.Coherent(main))
      modifies this`main, cache.tags, cache.lrus
      ensures main == Write(old(main), addr, value) && (cache.present ==> cache.Coherent(main))
    {
      hide Icache.InsnCache.Configured, Icache.InsnCache.Coherent, Icache.Pow2;
      cache.Inv(addr, main);
      if cache.present && addr in main { cache.WriteKeepsCoherent(main, addr, value); }
      main := Write(main, addr, value);
    }

    /** rsp_remove_matchpoint. */
    method RemoveMatchpoint(mtype: int, addr: nat) returns (reply: Reply)
      requires Valid() && addr < Icache.Pow2(Icache.ADDRESS_BITS)
      modifies this, table, table.heads, table.repr, cache.tags, cache.lrus
      ensures Valid() && table.repr <= old(table.repr)
      ensures Patched(table.entries, main) == Remove(old(Patched(table.entries, main)), mtype, addr)
      ensures reply == if mtype == 0 then Ok else if 1 <= mtype <= 4 then NotSupported else Error
    {
      hide Over, Icache.InsnCache.Configured, Icache.InsnCache.Coherent, Icache.Pow2;
      RemoveOver(Patched(table.entries, main), image, mtype, addr);
      if mtype != BP_MEMORY {
        return ReplyTo(mtype);
      }
      var entry := table.Delete(MpKey(mtype, addr));
      if entry != null {
        WriteProgram(addr, entry.instr);
      } else {
        assert table.entries == old(table.entries);
      }
      reply := Ok;
    }

    /** An instruction fetch sees the image with its traps, if the block it is in is mapped or the cache is bypassed. */
    method Fetch(addr: nat, ci: bool) returns (word: int)
      requires Valid() && addr < Icache.Pow2(Icache.ADDRESS_BITS) && addr % 4 == 0
      modifies cache.tags, cache.lrus, cache.lines
      ensures Valid()
      ensures word ==
        if old(cache.Bypasses(ci)) || Icache.BlockMapped(main, addr, cache.blockBits)
        then Read(Trapped(image, Addresses(table.entries)), addr) else 0
    {
      hide Icache.InsnCache.Configured, Icache.InsnCache.Coherent, Icache.Pow2, Icache.BlockMapped, Trapped, Addresses;
      word := cache.Fetch(addr, main, ci);
    }

    /** SR[ICE] is written. */
    method EnableCache(on: bool)
      requires Valid()
      modifies cache`enabled
      ensures Valid() && cache.enabled == on
    {
      cache.enabled := on;
    }

    /** One event: `word` is what a fetch gives. */
    method Handle(e: Event) returns (word: int)
      requires Valid() && Proper(e)
      modifies this, table, table.heads, table.repr, cache, cache.tags, cache.lrus, cache.lines
      ensures Valid() && fresh(table.repr - old(table.repr))
      ensures cache.enabled == if e.Switched? then e.on else old(cache.enabled)
      ensures Patched(table.entries, main) ==
        (if e.Asked? then Serve(old(Patched(table.entries, main)), e.request) else old(Patched(table.entries, main)))
      ensures e.FetchedAt? ==>
        word ==
        if old(cache.Bypasses(e.ci)) || Icache.BlockMapped(image, e.addr, cache.blockBits)
        then Read(Trapped(image, Addresses(table.entries)), e.addr) else 0
    {
      hide Over, Icache.InsnCache.Configured, Icache.InsnCache.Coherent, Icache.Pow2, Icache.BlockMapped, Addresses,
        Insert, Remove;
      word := 0;
      match e
      case Asked(InsertAt(mtype, addr)) =>
        var reply := InsertMatchpoint(mtype, addr);
      case Asked(RemoveAt(mtype, addr)) =>
        var reply := RemoveMatchpoint(mtype, addr);
      case FetchedAt(addr, ci) =>
        OverTraps(Patched(table.entries, main), image);
        MappedAlike(main, image, addr, cache.blockBits);
        word := Fetch(addr, ci);
      case InvalidatedAt(addr) =>
        cache.Inv(addr, main);
      case Switched(on) =>
        EnableCache(on);
    }
  }

  /** Whatever requests, fetches and invalidations come in whatever order, and the cache switched on and off in between:
      every fetch sees the image with the traps that stand, memory is that image in the end, and the cache agrees with
      it. */
  method Session(target: Target, events: seq<Event>) returns (words: seq<int>)
    requires target.Valid() && target.table.entries == map[] && forall e :: e in events ==> Proper(e)
    modifies target, target.table, target.table.heads, target.table.repr
    modifies target.cache, target.cache.tags, target.cache.lrus, target.cache.lines
    ensures target.Valid() && target.main == Trapped(target.image, Standing(Requests(events)))
    ensures target.cache.Configured() && (target.cache.present ==> target.cache.Coherent(target.main))
    ensures words ==
      Words(target.image, events, target.cache.present, old(target.cache.enabled), target.cache.blockBits)
  {
    hide Over, Proper, Standing, Requests, Words, IsOn, Trapped, Addresses, Icache.BlockMapped;
    words := [];
    ghost var image, on := target.image, target.cache.enabled;
    Nothing(target, image, on);
    for k := 0 to |events|
      invariant target.Valid() && fresh(target.table.repr - old(target.table.repr))
      invariant target.cache.enabled == IsOn(events[..k], on)
      invariant Patched(target.table.entries, target.main) == ServeAll(Patched(map[], image), Requests(events[..k]))
      invariant words == Words(image, events[..k], target.cache.present, on, target.cache.blockBits)
    {
      RunTraps(image, Requests(events[..k]));
      var word := target.Handle(events[k]);
      if events[k].FetchedAt? { words := words + [word]; }
      OneMore(image, events, k, target.cache.present, on, target.cache.blockBits);
    }
    assert events[..|events|] == events;
    RunTraps(image, Requests(events));
  }

  lemma Nothing(target: Target, image: Memory, on: bool)
    requires target.Valid() && target.table.entries == map[] && image == target.image
    ensures Patched(target.table.entries, target.main) == ServeAll(Patched(map[], image), Requests([]))
    ensures IsOn([], on) == on && forall present, b :: Words(image, [], present, on, b) == []
  {
    OverTraps(Patched(target.table.entries, target.main), image);
    NothingTrapped(image);
  }

  /** The specification of one more event. */
  lemma OneMore(image: Memory, events: seq<Event>, k: nat, present: bool, on: bool, blockBits: nat)
    requires k < |events|
    ensures
      var before, e := events[..k], events[k];
      IsOn(events[..k + 1], on) == (if e.Switched? then e.on else IsOn(before, on)) &&
      ServeAll(Patched(map[], image), Requests(events[..k + 1])) ==
        (if e.Asked? then Serve(ServeAll(Patched(map[], image), Requests(before)), e.request)
         else ServeAll(Patched(map[], image), Requests(before))) &&
      Words(image, events[..k + 1], present, on, blockBits) ==
        Words(image, before, present, on, blockBits) +
        (if !e.FetchedAt? then []
         else if !present || !IsOn(before, on) || e.ci || Icache.BlockMapped(image, e.addr, blockBits) then
           [Read(Trapped(image, Standing(Requests(before))), e.addr)]
         else [0])
  {
    hide Trapped, Icache.BlockMapped, Standing, Serve;
    assert events[..k + 1][..k] == events[..k];
    var requests := Requests(events[..k + 1]);
    if events[k].Asked? {
      assert requests[..|requests| - 1] == Requests(events[..k]);
    } else {
      assert requests == Requests(events[..k]);
    }
  }
}
