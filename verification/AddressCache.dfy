/** The NEAR/SAME address cache (section 5 of RFC 3284), for any cache sizes. */
module AddressCache {
  import opened Common
  import Integers

  const VCD_SELF: nat := 0
  const VCD_HERE: nat := 1

  /** xd3_addr_cache: s_near is |near| and s_same * 256 is |same|. */
  datatype Cache = Cache(near: seq<nat>, same: seq<nat>, nextSlot: nat) {
    ghost predicate Valid() {
      && |same| % 256 == 0
      && (near != [] ==> nextSlot < |near|)
      && (forall i :: 0 <= i < |near| ==> near[i] <= USIZE_MAX)
      && (forall i :: 0 <= i < |same| ==> same[i] <= USIZE_MAX)
    }

    /** Every same slot is empty or holds an address that belongs there. */
    ghost predicate Settled() {
      forall i :: 0 <= i < |same| ==> same[i] == 0 || same[i] % |same| == i
    }

    /** xd3_update_cache */
    function Update(addr: nat): (c: Cache)
      requires near != [] ==> nextSlot < |near|
      ensures |c.near| == |near| && |c.same| == |same|
      ensures Valid() && addr <= USIZE_MAX ==> c.Valid()
    {
      Cache(
        if near != [] then near[nextSlot := addr] else near,
        if same != [] then same[addr % |same| := addr] else same,
        if near != [] then (nextSlot + 1) % |near| else nextSlot)
    }

    function SameStart(): nat {
      2 + |near|
    }

    /** The search over the near slots from slot i on: the best distance so far and its mode.
        The search stops once one byte is enough. */
    function SearchNear(addr: nat, i: nat, best: (nat, nat)): (nat, nat)
      requires i <= |near|
      decreases |near| - i
    {
      if best.0 < 128 || i == |near| then best
      else if addr >= near[i] && addr - near[i] < best.0 then
        SearchNear(addr, i + 1, (addr - near[i], i + 2))
      else SearchNear(addr, i + 1, best)
    }

    /** The distance and mode tried before the same slots. */
    function Nearest(addr: nat, here: nat): (nat, nat)
      requires addr < here
    {
      var start := if addr >= 128 && here - addr < addr then (here - addr, VCD_HERE) else (addr, VCD_SELF);
      SearchNear(addr, 0, start)
    }

    /** xd3_encode_address: the mode and the bytes put into the address section. */
    function Encode(addr: nat, here: nat): (nat, seq<byte>)
      requires addr < here && |same| % 256 == 0
    {
      var best := Nearest(addr, here);
      if best.0 >= 128 && same != [] && same[addr % |same|] == addr then
        var d := addr % |same|;
        (SameStart() + d / 256, [d % 256])
      else
        (best.1, Integers.Encode(best.0))
    }

    /** xd3_decode_address: the address, the rest of the section and the updated cache.
        Sums and differences wrap at 32 bits. */
    function Decode(here: nat, mode: nat, s: seq<byte>): (r: Result<(nat, seq<byte>, Cache)>)
      requires Valid() && here <= USIZE_MAX
      requires mode < SameStart() + |same| / 256
    {
      if mode < SameStart() then
        match Integers.Read(s)
        case Err(e) => Err(e)
        case Ok((v, rest)) =>
          var addr :=
            if mode == VCD_SELF then v
            else if mode == VCD_HERE then Wrap32(here - v)
            else Wrap32(v + near[mode - 2]);
          Ok((addr, rest, Update(addr)))
      else if s == [] then Err(InvalidInput)
      else
        var addr := same[(mode - SameStart()) * 256 + s[0]];
        Ok((addr, s[1..], Update(addr)))
    }
  }

  /** The value of an unsigned 32-bit sum or difference. */
  function Wrap32(x: int): nat
    requires 0 - USIZE_MAX <= x <= 2 * USIZE_MAX
  {
    if x < 0 then x + USIZE_MAX + 1 else if x > USIZE_MAX then x - USIZE_MAX - 1 else x
  }

  /** xd3_init_cache */
  function Init(sNear: nat, sSame: nat): (c: Cache)
    ensures c.Valid() && |c.near| == sNear && |c.same| == 256 * sSame
  {
    Cache(Repeat(0, sNear), Repeat(0, 256 * sSame), 0)
  }

  /** Every cache the coders reach is settled. */
  lemma InitSettled(sNear: nat, sSame: nat)
    ensures Init(sNear, sSame).Settled()
  {
  }

  lemma UpdateSettled(c: Cache, addr: nat)
    requires c.Valid() && c.Settled()
    ensures c.Update(addr).Settled()
  {
  }

  /** What the near search returns: a mode the decoder inverts, whose distance is least among
      those tried, or one that fits one byte. */
  lemma {:induction false} SearchNearResult(c: Cache, addr: nat, i: nat, best: (nat, nat))
    requires i <= |c.near| && best.1 < i + 2
    ensures var r := c.SearchNear(addr, i, best);
            && r.0 <= best.0
            && (r == best || (2 <= r.1 < c.SameStart() && addr >= c.near[r.1 - 2] && r.0 == addr - c.near[r.1 - 2]))
            && (r.0 < 128 || forall j :: i <= j < |c.near| && c.near[j] <= addr ==> r.0 <= addr - c.near[j])
    decreases |c.near| - i
  {
    if best.0 < 128 || i == |c.near| {
    } else if addr >= c.near[i] && addr - c.near[i] < best.0 {
      SearchNearResult(c, addr, i + 1, (addr - c.near[i], i + 2));
    } else {
      SearchNearResult(c, addr, i + 1, best);
    }
  }

  lemma SameSlot(d: nat, n: nat)
    requires d < 256 * n
    ensures d / 256 < n && d / 256 * 256 + d % 256 == d
  {
  }

  lemma RoundTripSame(c: Cache, addr: nat, here: nat, rest: seq<byte>)
    requires c.Valid() && addr < here <= USIZE_MAX
    requires c.same != [] && c.same[addr % |c.same|] == addr
    ensures var d := addr % |c.same|;
            && d / 256 < |c.same| / 256
            && c.Decode(here, c.SameStart() + d / 256, [d % 256] + rest) == Ok((addr, rest, c.Update(addr)))
  {
    var d := addr % |c.same|;
    SameSlot(d, |c.same| / 256);
    assert ([d % 256] + rest)[1..] == rest;
  }

  lemma RoundTripNear(c: Cache, addr: nat, here: nat, rest: seq<byte>)
    requires c.Valid() && addr < here <= USIZE_MAX
    ensures var best := c.Nearest(addr, here);
            && best.1 < c.SameStart()
            && c.Decode(here, best.1, Integers.Encode(best.0) + rest) == Ok((addr, rest, c.Update(addr)))
  {
    var start := if addr >= 128 && here - addr < addr then (here - addr, VCD_HERE) else (addr, VCD_SELF);
    SearchNearResult(c, addr, 0, start);
    var best := c.Nearest(addr, here);
    Integers.ReadEncode(best.0, rest);
  }

  /** One address: decoding from the same cache returns it, leaves exactly the bytes that
      follow and makes the same cache update as the encoder. */
  lemma RoundTrip(c: Cache, addr: nat, here: nat, rest: seq<byte>)
    requires c.Valid() && addr < here <= USIZE_MAX
    ensures c.Encode(addr, here).0 < c.SameStart() + |c.same| / 256
    ensures c.Decode(here, c.Encode(addr, here).0, c.Encode(addr, here).1 + rest) == Ok((addr, rest, c.Update(addr)))
  {
    var best := c.Nearest(addr, here);
    if best.0 >= 128 && c.same != [] && c.same[addr % |c.same|] == addr {
      RoundTripSame(c, addr, here, rest);
    } else {
      RoundTripNear(c, addr, here, rest);
    }
  }

  /** No mode and no byte string decodes to the address with fewer bytes than the encoder used. */
  lemma EncodeIsShortest(c: Cache, addr: nat, here: nat, mode: nat, s: seq<byte>)
    requires c.Valid() && c.Settled() && addr < here <= USIZE_MAX
    requires mode < c.SameStart() + |c.same| / 256
    requires c.Decode(here, mode, s).Ok?
    requires c.Decode(here, mode, s).value.0 == addr && c.Decode(here, mode, s).value.1 == []
    ensures |c.Encode(addr, here).1| <= |s|
  {
    var start := if addr >= 128 && here - addr < addr then (here - addr, VCD_HERE) else (addr, VCD_SELF);
    SearchNearResult(c, addr, 0, start);
    var best := c.Nearest(addr, here);
    Integers.SizeOfEncode(best.0);
    assert |s| >= 1;
    if mode < c.SameStart() {
      var v := Integers.Read(s).value.0;
      Integers.EncodeIsShortest(s, v);
      Integers.SizeOfEncode(v);
      if best.0 >= 128 {
        assert best.0 <= v;
      }
    } else {
      assert c.same[addr % |c.same|] == addr || addr == 0;
    }
  }

  /** The addresses of one window: each with the position `here` at which it is used. */
  function EncodeAll(c: Cache, uses: seq<(nat, nat)>): (seq<nat>, seq<byte>)
    requires c.Valid() && InRange(uses)
    decreases |uses|
  {
    if uses == [] then ([], [])
    else
      var (addr, here) := uses[0];
      var (mode, bytes) := c.Encode(addr, here);
      var (modes, more) := EncodeAll(c.Update(addr), uses[1..]);
      ([mode] + modes, bytes + more)
  }

  ghost predicate InRange(uses: seq<(nat, nat)>) {
    forall i :: 0 <= i < |uses| ==> uses[i].0 < uses[i].1 <= USIZE_MAX
  }

  /** The cache after decoding the addresses of `uses` from `s`, if each comes back as given. */
  ghost predicate DecodesTo(c: Cache, uses: seq<(nat, nat)>, modes: seq<nat>, s: seq<byte>, rest: seq<byte>,
                            final: Cache)
    requires c.Valid() && InRange(uses) && |modes| == |uses|
    decreases |uses|
  {
    if uses == [] then s == rest && final == c
    else
      && modes[0] < c.SameStart() + |c.same| / 256
      && c.Decode(uses[0].1, modes[0], s).Ok?
      && var (addr, s', c') := c.Decode(uses[0].1, modes[0], s).value;
      && addr == uses[0].0
      && c'.Valid()
      && DecodesTo(c', uses[1..], modes[1..], s', rest, final)
  }

  function UpdateAll(c: Cache, uses: seq<(nat, nat)>): Cache
    requires c.Valid() && InRange(uses)
    decreases |uses|
  {
    if uses == [] then c else UpdateAll(c.Update(uses[0].0), uses[1..])
  }

  /** Encoder and decoder caches stay in lockstep over any sequence of addresses. */
  lemma {:induction false} Lockstep(c: Cache, uses: seq<(nat, nat)>, rest: seq<byte>)
    requires c.Valid() && InRange(uses)
    ensures var (modes, bytes) := EncodeAll(c, uses);
            && |modes| == |uses|
            && DecodesTo(c, uses, modes, bytes + rest, rest, UpdateAll(c, uses))
    decreases |uses|
  {
    hide Cache.Encode, Cache.Decode, Cache.Update, Cache.Valid;
    if uses != [] {
      var (addr, here) := uses[0];
      assert addr < here <= USIZE_MAX;
      UpdateValid(c, addr);
      var (mode, bytes) := c.Encode(addr, here);
      var (modes, more) := EncodeAll(c.Update(addr), uses[1..]);
      RoundTrip(c, addr, here, more + rest);
      Lockstep(c.Update(addr), uses[1..], rest);
      assert (bytes + more) + rest == bytes + (more + rest);
      assert ([mode] + modes)[1..] == modes;
    } else {
      assert EncodeAll(c, uses).1 + rest == rest;
    }
  }

  lemma UpdateValid(c: Cache, addr: nat)
    requires c.Valid() && addr <= USIZE_MAX
    ensures |c.same| % 256 == 0 && (c.near != [] ==> c.nextSlot < |c.near|) && c.Update(addr).Valid()
  {
  }

  // ---------------------------------------------------------------- what the cache remembers

  lemma {:induction false} UpdateAllSnoc(c: Cache, uses: seq<(nat, nat)>, last: (nat, nat))
    requires c.Valid() && InRange(uses + [last])
    ensures InRange(uses) && last.0 <= USIZE_MAX && UpdateAll(c, uses).Valid()
    ensures UpdateAll(c, uses + [last]) == UpdateAll(c, uses).Update(last.0)
    decreases |uses|
  {
    hide Cache.Update, Cache.Valid;
    var all := uses + [last];
    assert all[|uses|] == last;
    forall i | 0 <= i < |uses| ensures uses[i].0 < uses[i].1 <= USIZE_MAX {
      assert all[i] == uses[i];
    }
    UpdateValid(c, all[0].0);
    if uses == [] {
      assert all[1..] == [];
    } else {
      assert all[1..] == uses[1..] + [last];
      UpdateAllSnoc(c.Update(uses[0].0), uses[1..], last);
    }
  }

  /** Address i is the last one that belongs to its slot among n. */
  ghost predicate LastInSlot(uses: seq<(nat, nat)>, n: nat, i: nat)
    requires n > 0 && i < |uses|
  {
    forall k :: i < k < |uses| ==> InSlot(k, n) != InSlot(i, n)
  }

  /** The addresses take the near slots in turn. */
  function InSlot(i: nat, n: nat): (slot: nat)
    requires n > 0
    ensures slot < n
  {
    i % n
  }

  lemma NextInSlot(i: nat, n: nat)
    requires n > 0
    ensures (InSlot(i, n) + 1) % n == InSlot(i + 1, n)
  {
    var q, r := i / n, i % n;
    Parts(i, n);
    if r + 1 < n {
      ModUnique(i + 1, n, q, r + 1);
      ModUnique(r + 1, n, 0, r + 1);
    } else {
      NextMultiple(n, q);
      ModUnique(i + 1, n, q + 1, 0);
      ModUnique(n, n, 1, 0);
    }
  }

  lemma Parts(i: nat, n: nat)
    requires n > 0
    ensures i == n * (i / n) + i % n
  {
  }

  lemma NextMultiple(n: nat, q: nat)
    ensures n * (q + 1) == n * q + n
  {
  }

  lemma ModUnique(x: nat, n: nat, q: nat, r: nat)
    requires r < n && x == n * q + r
    ensures x % n == r
  {
    if q < x / n {
      MulAtLeast(n, q + 1, x / n);
    } else if x / n < q {
      MulAtLeast(n, x / n + 1, q);
    }
  }

  lemma MulAtLeast(n: nat, a: nat, b: nat)
    requires a <= b
    ensures n * a <= n * b
  {
  }

  /** Address i is the last one with its remainder by m. */
  ghost predicate LastAlike(uses: seq<(nat, nat)>, m: nat, i: nat)
    requires m > 0 && i < |uses|
  {
    forall k :: i < k < |uses| ==> uses[k].0 % m != uses[i].0 % m
  }

  /** Near slot j holds the last of the addresses number j, j + n, j + 2 * n and so on, or 0 if
      there is none. */
  ghost predicate NearHolds(n: nat, uses: seq<(nat, nat)>, near: seq<nat>)
    requires n > 0
  {
    && |near| == n
    && (forall i :: 0 <= i < |uses| && LastInSlot(uses, n, i) ==> near[InSlot(i, n)] == uses[i].0)
    && (forall j :: 0 <= j < n && (forall i :: 0 <= i < |uses| ==> InSlot(i, n) != j) ==> near[j] == 0)
  }

  /** So it does after any sequence of addresses from the start of a window. */
  lemma {:induction false} NearRemembers(sNear: nat, sSame: nat, uses: seq<(nat, nat)>)
    requires InRange(uses) && sNear > 0
    ensures var c := UpdateAll(Init(sNear, sSame), uses);
            c.nextSlot == InSlot(|uses|, sNear) && NearHolds(sNear, uses, c.near)
    decreases |uses|
  {
    hide InSlot, NearHolds, Cache.Update, LastInSlot;
    if uses == [] {
      NearStart(sNear, sSame);
    } else {
      var n := |uses| - 1;
      var front := uses[..n];
      assert uses == front + [uses[n]];
      UpdateAllSnoc(Init(sNear, sSame), front, uses[n]);
      NearRemembers(sNear, sSame, front);
      AllValid(sNear, sSame, front);
      UpdateNear(UpdateAll(Init(sNear, sSame), front), uses[n].0);
      NearStep(sNear, uses, UpdateAll(Init(sNear, sSame), front).near, UpdateAll(Init(sNear, sSame), uses).near);
      NextInSlot(n, sNear);
    }
  }

  lemma UpdateNear(c: Cache, addr: nat)
    requires c.Valid() && c.near != []
    ensures c.nextSlot < |c.near|
    ensures c.Update(addr).near == c.near[c.nextSlot := addr] && c.Update(addr).nextSlot == (c.nextSlot + 1) % |c.near|
  {
  }

  /** One more address in the near slots. */
  lemma NearStep(n: nat, uses: seq<(nat, nat)>, before: seq<nat>, after: seq<nat>)
    requires n > 0 && uses != [] && |before| == n
    requires var last := |uses| - 1; after == before[InSlot(last, n) := uses[last].0]
    requires NearHolds(n, uses[..|uses| - 1], before)
    ensures NearHolds(n, uses, after)
  {
    hide InSlot;
    var last := |uses| - 1;
    var front := uses[..last];
    forall i | 0 <= i < |uses| && LastInSlot(uses, n, i) ensures after[InSlot(i, n)] == uses[i].0 {
      if i < last {
        assert InSlot(last, n) != InSlot(i, n);
        assert LastInSlot(front, n, i);
      }
    }
    forall j | 0 <= j < n && (forall i :: 0 <= i < |uses| ==> InSlot(i, n) != j) ensures after[j] == 0 {
      assert InSlot(last, n) != j;
    }
  }

  lemma NearStart(sNear: nat, sSame: nat)
    requires sNear > 0
    ensures Init(sNear, sSame).nextSlot == InSlot(0, sNear) && NearHolds(sNear, [], Init(sNear, sSame).near)
  {
  }

  /** Same slot k holds the last address with remainder k, or 0 if there is none. */
  lemma {:induction false} SameRemembers(sNear: nat, sSame: nat, uses: seq<(nat, nat)>)
    requires InRange(uses) && sSame > 0
    ensures var c := UpdateAll(Init(sNear, sSame), uses);
            && |c.same| == 256 * sSame
            && (forall i :: 0 <= i < |uses| && LastAlike(uses, 256 * sSame, i) ==>
                  c.same[uses[i].0 % (256 * sSame)] == uses[i].0)
            && (forall k :: 0 <= k < 256 * sSame && (forall i :: 0 <= i < |uses| ==> uses[i].0 % (256 * sSame) != k) ==>
                  c.same[k] == 0)
    decreases |uses|
  {
    if uses != [] {
      var n, m := |uses| - 1, 256 * sSame;
      var front := uses[..n];
      assert uses == front + [uses[n]];
      UpdateAllSnoc(Init(sNear, sSame), front, uses[n]);
      SameRemembers(sNear, sSame, front);
      var b, c := UpdateAll(Init(sNear, sSame), front), UpdateAll(Init(sNear, sSame), uses);
      assert c.same == b.same[uses[n].0 % m := uses[n].0];
      forall i | 0 <= i < |uses| && LastAlike(uses, m, i) ensures c.same[uses[i].0 % m] == uses[i].0 {
        if i < n {
          assert LastAlike(front, m, i);
        }
      }
      forall k | 0 <= k < m && (forall i :: 0 <= i < |uses| ==> uses[i].0 % m != k) ensures c.same[k] == 0 {
        assert uses[n].0 % m != k;
      }
    }
  }

  /** A number read in one of the first modes: the address itself, the distance back from here, or
      the distance from a near slot. */
  lemma NumberDecodes(c: Cache, here: nat, mode: nat, v: nat, rest: seq<byte>)
    requires c.Valid() && here <= USIZE_MAX && v <= USIZE_MAX && mode < c.SameStart()
    requires mode == VCD_HERE ==> v <= here
    requires mode > VCD_HERE ==> v + c.near[mode - 2] <= USIZE_MAX
    ensures var addr := if mode == VCD_SELF then v else if mode == VCD_HERE then here - v else v + c.near[mode - 2];
            c.Decode(here, mode, Integers.Encode(v) + rest) == Ok((addr, rest, c.Update(addr)))
  {
    hide Integers.Encode, Integers.Read, Cache.Update;
    Integers.ReadEncode(v, rest);
  }

  /** A byte read in one of the other modes: the same slot. */
  lemma ByteDecodes(c: Cache, here: nat, d: nat, rest: seq<byte>)
    requires c.Valid() && here <= USIZE_MAX && d < |c.same|
    ensures d / 256 < |c.same| / 256
    ensures c.Decode(here, c.SameStart() + d / 256, [d % 256] + rest) == Ok((c.same[d], rest, c.Update(c.same[d])))
  {
    hide Cache.Update;
    SameSlot(d, |c.same| / 256);
    assert ([d % 256] + rest)[1..] == rest;
  }

  /** What an address means after any addresses: the number itself, the distance back from here,
      the distance from the last address that took a near slot, or, as one byte, the last address
      alike. */
  lemma ModesMean(sNear: nat, sSame: nat, uses: seq<(nat, nat)>, here: nat, v: nat, rest: seq<byte>)
    requires InRange(uses) && here <= USIZE_MAX && v <= USIZE_MAX
    ensures var c := UpdateAll(Init(sNear, sSame), uses);
            var s := Integers.Encode(v) + rest;
            && c.Valid() && |c.near| == sNear && |c.same| == 256 * sSame
            && c.Decode(here, VCD_SELF, s) == Ok((v, rest, c.Update(v)))
            && (v <= here ==> c.Decode(here, VCD_HERE, s) == Ok((here - v, rest, c.Update(here - v))))
            && (forall i :: 0 <= i < |uses| && sNear > 0 && LastInSlot(uses, sNear, i) && v + uses[i].0 <= USIZE_MAX ==>
                  c.Decode(here, 2 + InSlot(i, sNear), s) == Ok((v + uses[i].0, rest, c.Update(v + uses[i].0))))
  {
    hide InSlot, Integers.Encode, Cache.Update, Cache.Decode, LastInSlot, Cache.Valid, UpdateAll;
    AllValid(sNear, sSame, uses);
    CacheParts(UpdateAll(Init(sNear, sSame), uses));
    var c := UpdateAll(Init(sNear, sSame), uses);
    NumberDecodes(c, here, VCD_SELF, v, rest);
    if v <= here {
      NumberDecodes(c, here, VCD_HERE, v, rest);
    }
    forall i | 0 <= i < |uses| && sNear > 0 && LastInSlot(uses, sNear, i) && v + uses[i].0 <= USIZE_MAX
      ensures 2 + InSlot(i, sNear) < c.SameStart() + |c.same| / 256
      ensures c.Decode(here, 2 + InSlot(i, sNear), Integers.Encode(v) + rest)
              == Ok((v + uses[i].0, rest, c.Update(v + uses[i].0)))
    {
      NearRemembers(sNear, sSame, uses);
      NumberDecodes(c, here, 2 + InSlot(i, sNear), v, rest);
    }
  }

  lemma CacheParts(c: Cache)
    requires c.Valid()
    ensures c.near != [] ==> c.nextSlot < |c.near|
  {
  }

  /** The one-byte modes. */
  lemma SameMeans(sNear: nat, sSame: nat, uses: seq<(nat, nat)>, here: nat, i: nat, rest: seq<byte>)
    requires InRange(uses) && here <= USIZE_MAX && sSame > 0 && i < |uses| && LastAlike(uses, 256 * sSame, i)
    ensures var c := UpdateAll(Init(sNear, sSame), uses);
            var d := uses[i].0 % (256 * sSame);
            && c.Valid() && |c.near| == sNear && |c.same| == 256 * sSame && d / 256 < sSame
            && c.Decode(here, 2 + sNear + d / 256, [d % 256] + rest) == Ok((uses[i].0, rest, c.Update(uses[i].0)))
  {
    hide Cache.Update, Cache.Decode, Cache.Valid, UpdateAll, LastAlike;
    AllValid(sNear, sSame, uses);
    var c := UpdateAll(Init(sNear, sSame), uses);
    CacheParts(c);
    SameRemembers(sNear, sSame, uses);
    ByteDecodes(c, here, uses[i].0 % (256 * sSame), rest);
  }

  lemma {:induction false} AllValid(sNear: nat, sSame: nat, uses: seq<(nat, nat)>)
    requires InRange(uses)
    ensures var c := UpdateAll(Init(sNear, sSame), uses);
            c.Valid() && |c.near| == sNear && |c.same| == 256 * sSame
    decreases |uses|
  {
    if uses != [] {
      var n := |uses| - 1;
      assert uses == uses[..n] + [uses[n]];
      UpdateAllSnoc(Init(sNear, sSame), uses[..n], uses[n]);
      AllValid(sNear, sSame, uses[..n]);
    }
  }

  // ---------------------------------------------------------------- shortest over a whole run

  /** An address is decoded from its own bytes, whatever follows them. */
  lemma DecodePrefix(c: Cache, here: nat, mode: nat, s: seq<byte>)
    requires c.Valid() && here <= USIZE_MAX && mode < c.SameStart() + |c.same| / 256 && c.Decode(here, mode, s).Ok?
    ensures var (addr, rest, c') := c.Decode(here, mode, s).value;
            && |rest| <= |s| && c' == c.Update(addr)
            && c.Decode(here, mode, s[..|s| - |rest|]) == Ok((addr, [], c'))
  {
    hide Cache.Update;
    if mode < c.SameStart() {
      Integers.ReadPrefix(s, 0);
    } else {
      assert s[..1][1..] == [];
    }
  }

  /** No choice of modes and bytes for a whole sequence of addresses is shorter than the encoder's. */
  lemma {:induction false} RunIsShortest(c: Cache, uses: seq<(nat, nat)>, modes: seq<nat>, s: seq<byte>, final: Cache)
    requires c.Valid() && c.Settled() && InRange(uses) && |modes| == |uses|
    requires DecodesTo(c, uses, modes, s, [], final)
    ensures |EncodeAll(c, uses).1| <= |s| && final == UpdateAll(c, uses)
    decreases |uses|
  {
    hide Cache.Encode, Cache.Decode, Cache.Update, Cache.Valid, Cache.Settled;
    if uses != [] {
      var (addr, here) := uses[0];
      assert addr < here <= USIZE_MAX;
      DecodePrefix(c, here, modes[0], s);
      var rest := c.Decode(here, modes[0], s).value.1;
      EncodeIsShortest(c, addr, here, modes[0], s[..|s| - |rest|]);
      UpdateValid(c, addr);
      UpdateSettled(c, addr);
      RunIsShortest(c.Update(addr), uses[1..], modes[1..], rest, final);
    }
  }

  /** In particular for the addresses of a window, which start from the initial cache of any size. */
  lemma WindowIsShortest(sNear: nat, sSame: nat, uses: seq<(nat, nat)>, modes: seq<nat>, s: seq<byte>, final: Cache)
    requires InRange(uses) && |modes| == |uses| && DecodesTo(Init(sNear, sSame), uses, modes, s, [], final)
    ensures |EncodeAll(Init(sNear, sSame), uses).1| <= |s|
  {
    InitSettled(sNear, sSame);
    RunIsShortest(Init(sNear, sSame), uses, modes, s, final);
  }
}
