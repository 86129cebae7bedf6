/** The external Gecko atom table, reduced to the contract the crate relies
    on: each entry has a reference count, its text as UTF-16 code units, and
    a 32-bit hash. Interning keeps one entry per text. How the table hashes,
    stores and reclaims entries is not modelled: the hash is an arbitrary
    function of the text fixed when the table is made, and an entry whose
    count falls to zero stays in the maps. */
module GeckoTable {
  import opened Wrappers
  import opened Utf16

  /** The address of an `nsIAtom`, kept opaque. */
  type Ptr = nat

  type u32 = x: int | 0 <= x < 0x1_0000_0000

  const U32_MAX: int := 0xFFFF_FFFF

  /** The number of UTF-8 bytes of a string (`str::len`). */
  function Utf8Len(s: string): (n: nat)
    ensures |s| <= n <= 4 * |s|
  {
    if s == [] then 0
    else
      var c := s[0] as int;
      (if c < 0x80 then 1 else if c < 0x800 then 2 else if c < 0x1_0000 then 3 else 4)
      + Utf8Len(s[1..])
  }

  /** A string never has more UTF-16 code units than UTF-8 bytes, so a text
      whose byte length fits in `u32` also has a UTF-16 length that fits in
      the `u32` length that `Gecko_Atom_GetUTF16String` reports. */
  lemma {:induction false} Utf16LenAtMostUtf8Len(s: string)
    ensures |Encode(s)| <= Utf8Len(s)
  {
    if s != [] {
      Utf16LenAtMostUtf8Len(s[1..]);
    }
  }

  /** At most one entry per text. */
  ghost predicate Interned(texts: map<Ptr, seq<u16>>) {
    forall p, q :: p in texts && q in texts && texts[p] == texts[q] ==> p == q
  }

  lemma InternedInsert(texts: map<Ptr, seq<u16>>, p: Ptr, units: seq<u16>)
    requires Interned(texts) && p !in texts && units !in texts.Values
    ensures Interned(texts[p := units])
  {
  }

  /** The count a map gives `p`, zero when `p` has no entry. */
  function Count(m: map<Ptr, nat>, p: Ptr): nat {
    if p in m then m[p] else 0
  }

  /** One more on `p`; every other count as it was. */
  function Inc(m: map<Ptr, nat>, p: Ptr): map<Ptr, nat> {
    m[p := Count(m, p) + 1]
  }

  /** One fewer on `p`; every other count as it was. */
  function Dec(m: map<Ptr, nat>, p: Ptr): map<Ptr, nat>
    requires Count(m, p) > 0
  {
    m[p := m[p] - 1]
  }

  /** Taking a reference and giving it back leaves every count as it was. */
  lemma DecInc(m: map<Ptr, nat>, p: Ptr)
    requires p in m
    ensures Dec(Inc(m, p), p) == m
  {
  }

  /** The same, read through `Count`, also for an entry that did not exist
      and was made by the `Inc`. */
  lemma DecIncCounts(m: map<Ptr, nat>, p: Ptr)
    ensures forall q :: Count(Dec(Inc(m, p), p), q) == Count(m, q)
  {
  }

  /** A run of `AddRef` (true) and `Release` (false) calls on entry `p`;
      `None` when a release would take the count below zero. */
  function RunOps(m: map<Ptr, nat>, p: Ptr, ops: seq<bool>): Option<map<Ptr, nat>>
    decreases |ops|
  {
    if ops == [] then Some(m)
    else if ops[0] then RunOps(Inc(m, p), p, ops[1..])
    else if Count(m, p) == 0 then None
    else RunOps(Dec(m, p), p, ops[1..])
  }

  function AddRefs(ops: seq<bool>): nat {
    if ops == [] then 0 else (if ops[0] then 1 else 0) + AddRefs(ops[1..])
  }

  function Releases(ops: seq<bool>): nat {
    if ops == [] then 0 else (if ops[0] then 0 else 1) + Releases(ops[1..])
  }

  /** Whatever the order of the calls, a completed run changes the count of
      `p` by the number of `AddRef`s minus the number of `Release`s, and no
      other count. */
  lemma {:induction false} RunOpsNet(m: map<Ptr, nat>, p: Ptr, ops: seq<bool>)
    requires RunOps(m, p, ops).Some?
    ensures var r := RunOps(m, p, ops).value;
      && Count(r, p) == Count(m, p) + AddRefs(ops) - Releases(ops)
      && (forall q :: q != p ==> (q in r <==> q in m))
      && (forall q :: q != p && q in m ==> r[q] == m[q])
    decreases |ops|
  {
    if ops != [] {
      if ops[0] {
        RunOpsNet(Inc(m, p), p, ops[1..]);
      } else {
        RunOpsNet(Dec(m, p), p, ops[1..]);
      }
    }
  }

  /** Balanced runs: as many `Release`s as `AddRef`s, in any order, leave
      the table's counts exactly as they were, provided `p` had an entry. */
  lemma {:induction false} BalancedRunRestores(m: map<Ptr, nat>, p: Ptr, ops: seq<bool>)
    requires p in m && RunOps(m, p, ops).Some? && AddRefs(ops) == Releases(ops)
    ensures RunOps(m, p, ops).value == m
  {
    RunOpsNet(m, p, ops);
    var r := RunOps(m, p, ops).value;
    assert p in r by {
      if p !in r {
        RunOpsKeepsKey(m, p, ops);
      }
    }
  }

  lemma {:induction false} SplitCounts(a: seq<bool>, b: seq<bool>)
    ensures AddRefs(a + b) == AddRefs(a) + AddRefs(b)
    ensures Releases(a + b) == Releases(a) + Releases(b)
  {
    if a == [] {
      assert a + b == b;
    } else {
      assert (a + b)[1..] == a[1..] + b;
      SplitCounts(a[1..], b);
    }
  }

  /** A run completes whenever no prefix of it releases more references
      than the entry had plus those the prefix added. */
  lemma {:induction false} RunOpsCompletes(m: map<Ptr, nat>, p: Ptr, ops: seq<bool>)
    requires forall i :: 0 <= i <= |ops| ==> Releases(ops[..i]) <= Count(m, p) + AddRefs(ops[..i])
    ensures RunOps(m, p, ops).Some?
    decreases |ops|
  {
    if ops != [] {
      assert Releases(ops[..1]) <= Count(m, p) + AddRefs(ops[..1]);
      assert ops[..1][1..] == [];
      assert Releases(ops[..1][1..]) == 0 && AddRefs(ops[..1][1..]) == 0;
      assert Releases(ops[..1]) == (if ops[0] then 0 else 1);
      assert AddRefs(ops[..1]) == (if ops[0] then 1 else 0);
      assert Count(m, p) > 0 || ops[0];
      var rest := ops[1..];
      var m' := if ops[0] then Inc(m, p) else Dec(m, p);
      forall i | 0 <= i <= |rest|
        ensures Releases(rest[..i]) <= Count(m', p) + AddRefs(rest[..i])
      {
        assert ops[..i + 1] == [ops[0]] + rest[..i];
        SplitCounts([ops[0]], rest[..i]);
      }
      RunOpsCompletes(m', p, rest);
    }
  }

  /** Balanced runs on an entry that may not exist yet: every count, read
      with zero for a missing entry, ends where it began. */
  lemma BalancedRunKeepsCounts(m: map<Ptr, nat>, p: Ptr, ops: seq<bool>)
    requires RunOps(m, p, ops).Some? && AddRefs(ops) == Releases(ops)
    ensures forall q :: Count(RunOps(m, p, ops).value, q) == Count(m, q)
  {
    RunOpsNet(m, p, ops);
  }

  /** A run never removes the entry of `p`. */
  lemma {:induction false} RunOpsKeepsKey(m: map<Ptr, nat>, p: Ptr, ops: seq<bool>)
    requires p in m && RunOps(m, p, ops).Some?
    ensures p in RunOps(m, p, ops).value
    decreases |ops|
  {
    if ops != [] {
      if ops[0] {
        RunOpsKeepsKey(Inc(m, p), p, ops[1..]);
      } else {
        RunOpsKeepsKey(Dec(m, p), p, ops[1..]);
      }
    }
  }

  /** One `Atom::from` (an `AddRef` on the entry, which it makes when the
      text is new), three clones, and the four handles dropped in an
      interleaved order: the run completes, and every count ends where it
      began, whether or not `p` had an entry before. */
  lemma CloneThreeDropFourRestores(m: map<Ptr, nat>, p: Ptr)
    ensures var r := RunOps(m, p, [true, true, false, true, true, false, false, false]);
      r.Some? && forall q :: Count(r.value, q) == Count(m, q)
  {
    var ops := [true, true, false, true, true, false, false, false];
    var m1 := Inc(m, p);
    var m2 := Inc(m1, p);
    var m3 := Dec(m2, p);
    var m4 := Inc(m3, p);
    var m5 := Inc(m4, p);
    var m6 := Dec(m5, p);
    var m7 := Dec(m6, p);
    assert Count(m7, p) == Count(m, p) + 1;
    var m8 := Dec(m7, p);
    assert RunOps(m7, p, ops[7..]) == Some(m8) by { assert ops[7..][1..] == []; }
    assert RunOps(m6, p, ops[6..]) == Some(m8) by { assert ops[6..][1..] == ops[7..]; }
    assert RunOps(m5, p, ops[5..]) == Some(m8) by { assert ops[5..][1..] == ops[6..]; }
    assert RunOps(m4, p, ops[4..]) == Some(m8) by { assert ops[4..][1..] == ops[5..]; }
    assert RunOps(m3, p, ops[3..]) == Some(m8) by { assert ops[3..][1..] == ops[4..]; }
    assert RunOps(m2, p, ops[2..]) == Some(m8) by { assert ops[2..][1..] == ops[3..]; }
    assert RunOps(m1, p, ops[1..]) == Some(m8) by { assert ops[1..][1..] == ops[2..]; }
    assert RunOps(m, p, ops) == Some(m8);
    assert AddRefs(ops) == 4 && Releases(ops) == 4;
    BalancedRunKeepsCounts(m, p, ops);
  }

  /** Every entry lies below the allocation cursor. */
  ghost predicate Below(counts: map<Ptr, nat>, next: Ptr) {
    forall p :: p in counts ==> p < next
  }

  /** Each text fits the table's `u32` length and carries the hash of it. */
  ghost predicate Stored(texts: map<Ptr, seq<u16>>, hashes: map<Ptr, u32>, hashOf: seq<u16> -> u32) {
    forall p :: p in texts ==> |texts[p]| <= U32_MAX && p in hashes && hashes[p] == hashOf(texts[p])
  }

  /** Every handle held on an entry is backed by a unit of its count. */
  ghost predicate Backs(counts: map<Ptr, nat>, held: map<Ptr, nat>) {
    held.Keys <= counts.Keys && forall p :: p in held ==> held[p] <= counts[p]
  }

  /** Raising one entry's count, or adding a new entry, keeps every held
      handle backed. */
  lemma BacksRaise(counts: map<Ptr, nat>, held: map<Ptr, nat>, p: Ptr, n: nat)
    requires Backs(counts, held)
    requires p in counts ==> counts[p] <= n
    requires p !in counts ==> p !in held
    ensures Backs(counts[p := n], held)
  {
  }

  /** Changing how many handles are held on one entry keeps every held
      handle backed as long as the entry's count covers the new number. */
  lemma BacksHold(counts: map<Ptr, nat>, held: map<Ptr, nat>, p: Ptr, n: nat)
    requires Backs(counts, held) && p in counts && n <= counts[p]
    ensures Backs(counts, held[p := n])
  {
  }

  /** Lowering a count that exceeds the handles held on it keeps every held
      handle backed. */
  lemma BacksLower(counts: map<Ptr, nat>, held: map<Ptr, nat>, p: Ptr)
    requires Backs(counts, held) && p in counts && counts[p] > 0
    requires p in held ==> held[p] < counts[p]
    ensures Backs(counts[p := counts[p] - 1], held)
  {
  }

  /** The table's invariant, over its state: one key set for all three
      maps, entries below the cursor, one entry per text, texts that fit
      `u32` with their hashes, and every held handle backed by a count. */
  ghost predicate TableInv(counts: map<Ptr, nat>, texts: map<Ptr, seq<u16>>, hashes: map<Ptr, u32>,
                           next: Ptr, hashOf: seq<u16> -> u32, held: map<Ptr, nat>)
  {
    && counts.Keys == texts.Keys
    && hashes.Keys == texts.Keys
    && Below(counts, next)
    && Interned(texts)
    && Stored(texts, hashes, hashOf)
    && Backs(counts, held)
  }

  /** One more reference on an existing entry keeps the invariant and
      leaves a reference no held handle relies on. */
  lemma RaiseKeepsInv(counts: map<Ptr, nat>, texts: map<Ptr, seq<u16>>, hashes: map<Ptr, u32>,
                      next: Ptr, hashOf: seq<u16> -> u32, held: map<Ptr, nat>, p: Ptr)
    requires TableInv(counts, texts, hashes, next, hashOf, held) && p in counts
    ensures TableInv(Inc(counts, p), texts, hashes, next, hashOf, held)
    ensures Count(held, p) < Inc(counts, p)[p]
  {
    BacksRaise(counts, held, p, counts[p] + 1);
  }

  /** A new entry for a text not yet interned, made at the cursor with one
      reference, keeps the invariant. */
  lemma FreshKeepsInv(counts: map<Ptr, nat>, texts: map<Ptr, seq<u16>>, hashes: map<Ptr, u32>,
                      next: Ptr, hashOf: seq<u16> -> u32, held: map<Ptr, nat>, units: seq<u16>)
    requires TableInv(counts, texts, hashes, next, hashOf, held)
    requires units !in texts.Values && |units| <= U32_MAX
    ensures next !in texts
    ensures TableInv(Inc(counts, next), texts[next := units], hashes[next := hashOf(units)], next + 1, hashOf, held)
    ensures Count(held, next) < Inc(counts, next)[next]
  {
    assert next !in counts;
    BacksRaise(counts, held, next, 1);
    InternedInsert(texts, next, units);
  }

  class AtomTable {
    var counts: map<Ptr, nat>
    var texts: map<Ptr, seq<u16>>
    var hashes: map<Ptr, u32>
    /** Where the next new entry goes. */
    var next: Ptr
    /** The table's own hash of a text. */
    const hashOf: seq<u16> -> u32
    /** How many `Atom` handles the crate currently holds for each entry. */
    ghost var held: map<Ptr, nat>

    ghost predicate Valid()
      reads this
    {
      TableInv(counts, texts, hashes, next, hashOf, held)
    }

    /** The handles the crate holds for entry `p`. */
    ghost function Held(p: Ptr): nat
      reads this
    {
      Count(held, p)
    }

    constructor (hashOf: seq<u16> -> u32)
      ensures Valid()
      ensures counts == map[] && held == map[] && this.hashOf == hashOf
    {
      counts, texts, hashes, next := map[], map[], map[], 0;
      this.hashOf := hashOf;
      held := map[];
    }

    /** `Gecko_NewAtom(s, len)`: the entry for the text `s` (given as its
        `len` UTF-8 bytes), made if there is none, with one more reference
        credited to the caller. */
    method NewAtom(s: string, len: u32) returns (p: Ptr)
      requires Valid() && len == Utf8Len(s)
      modifies this`counts, this`texts, this`hashes, this`next
      ensures Valid()
      ensures p in texts && texts[p] == Encode(s)
      ensures p in old(texts) <==> Encode(s) in old(texts).Values
      ensures texts == old(texts)[p := Encode(s)]
      ensures hashes == old(hashes)[p := hashOf(Encode(s))]
      ensures counts == Inc(old(counts), p)
      ensures Held(p) < counts[p]
    {
      var units := Encode(s);
      Utf16LenAtMostUtf8Len(s);
      if q :| q in texts && texts[q] == units {
        p := q;
        RaiseKeepsInv(counts, texts, hashes, next, hashOf, held, p);
        counts := Inc(counts, p);
      } else {
        assert units !in texts.Values;
        p := next;
        FreshKeepsInv(counts, texts, hashes, next, hashOf, held, units);
        counts, texts, hashes, next := Inc(counts, p), texts[p := units], hashes[p := hashOf(units)], next + 1;
      }
    }

    /** `Gecko_AddRefAtom`. */
    method AddRef(p: Ptr)
      requires Valid() && p in counts
      modifies this`counts
      ensures Valid()
      ensures counts == Inc(old(counts), p)
      ensures Held(p) < counts[p]
    {
      RaiseKeepsInv(counts, texts, hashes, next, hashOf, held, p);
      counts := Inc(counts, p);
    }

    /** `Gecko_ReleaseAtom`: gives up a reference no held handle relies on. */
    method Release(p: Ptr)
      requires Valid() && p in counts && Held(p) < counts[p]
      modifies this`counts
      ensures Valid()
      ensures counts == Dec(old(counts), p)
    {
      BacksLower(counts, held, p);
      counts := Dec(counts, p);
    }

    /** The crate starts holding a handle on `p`, backed by a reference not
        yet held. */
    ghost method Hold(p: Ptr)
      requires Valid() && p in counts && Held(p) < counts[p]
      modifies this`held
      ensures Valid()
      ensures held == Inc(old(held), p)
    {
      BacksHold(counts, held, p, Held(p) + 1);
      held := Inc(held, p);
    }

    /** The crate stops holding a handle on `p`; the reference that backed it
        is now free to be released. */
    ghost method Unhold(p: Ptr)
      requires Valid() && Held(p) > 0
      modifies this`held
      ensures Valid()
      ensures held == Dec(old(held), p)
      ensures p in counts && Held(p) < counts[p]
    {
      BacksHold(counts, held, p, Held(p) - 1);
      held := Dec(held, p);
    }

    /** `Gecko_Atom_GetHash`: the stored hash, which is the table's hash of
        the entry's text. */
    function GetHash(p: Ptr): (h: u32)
      reads this
      requires Valid() && p in texts
      ensures h == hashOf(texts[p])
    {
      hashes[p]
    }

    /** `Gecko_Atom_GetUTF16String`: the entry's code units, with a length
        that fits the `u32` it is reported in; no other entry holds them. */
    function GetUTF16String(p: Ptr): (u: seq<u16>)
      reads this
      requires Valid() && p in texts
      ensures |u| <= U32_MAX
      ensures forall q :: q in texts && texts[q] == u ==> q == p
    {
      texts[p]
    }
  }
}
