/** The crate's `Atom` and `Namespace`: construction from a string, the
    reference-counting `Clone` and `Drop`, the delegated `Hash`, the views of
    the entry's text, and the comparisons. Every operation goes through the
    table `t`, which stands for Gecko's atom table. */
module GeckoAtom {
  import opened Wrappers
  import opened Utf16
  import opened GeckoTable
  import AtomCompare

  /** `struct Atom(*mut nsIAtom)`: the handle is the pointer alone, so the
      derived equality is pointer identity. */
  datatype Atom = Atom(ptr: Ptr)

  /** `struct Namespace(pub Atom)`, with derived `PartialEq`, `Hash` and
      `Clone`. */
  datatype Namespace = Namespace(atom: Atom)

  /** `a` is a handle the crate holds, so its entry is alive. */
  ghost predicate Live(t: AtomTable, a: Atom)
    reads t
  {
    t.Valid() && t.Held(a.ptr) > 0
  }

  /** The table after a successful `Atom::from(s)`: the entry for the
      UTF-16 form of `s` (the existing one if the text was interned already,
      a new one otherwise) has one more reference, held by the result. */
  twostate predicate Acquired(t: AtomTable, s: string, a: Atom)
    reads t
  {
    var p := a.ptr;
    && p in t.texts && t.texts[p] == Encode(s)
    && (p in old(t.texts) <==> Encode(s) in old(t.texts).Values)
    && t.texts == old(t.texts)[p := Encode(s)]
    && t.hashes == old(t.hashes)[p := t.hashOf(Encode(s))]
    && t.counts == Inc(old(t.counts), p)
    && t.held == Inc(old(t.held), p)
  }

  /** `impl From<&str> for Atom`: asserts that the byte length fits in `u32`
      (a panic, `None` here) and interns the text. */
  method FromStr(t: AtomTable, s: string) returns (r: Option<Atom>)
    requires t.Valid()
    modifies t
    ensures t.Valid()
    ensures r.Some? <==> Utf8Len(s) <= U32_MAX
    ensures r.None? ==> unchanged(t)
    ensures r.Some? ==> Live(t, r.value) && Acquired(t, s, r.value)
  {
    var n := Utf8Len(s);
    if n > U32_MAX {
      return None;
    }
    // `string.len() as u32`, exact once the assertion has passed
    var len: u32 := n % 0x1_0000_0000;
    var p := t.NewAtom(s, len);
    t.Hold(p);
    r := Some(Atom(p));
  }

  /** `impl From<Cow<str>> for Atom`: the same as from the borrowed text. */
  method FromCow(t: AtomTable, s: string) returns (r: Option<Atom>)
    requires t.Valid()
    modifies t
    ensures t.Valid()
    ensures r.Some? <==> Utf8Len(s) <= U32_MAX
    ensures r.None? ==> unchanged(t)
    ensures r.Some? ==> Live(t, r.value) && Acquired(t, s, r.value)
  {
    r := FromStr(t, s);
  }

  /** `impl From<String> for Atom`: the same as from the borrowed text. */
  method FromString(t: AtomTable, s: string) returns (r: Option<Atom>)
    requires t.Valid()
    modifies t
    ensures t.Valid()
    ensures r.Some? <==> Utf8Len(s) <= U32_MAX
    ensures r.None? ==> unchanged(t)
    ensures r.Some? ==> Live(t, r.value) && Acquired(t, s, r.value)
  {
    r := FromStr(t, s);
  }

  /** `impl Clone for Atom`: one more reference on the same entry, and a
      handle with the same pointer. Nothing else in the table changes. */
  method Clone(t: AtomTable, a: Atom) returns (b: Atom)
    requires Live(t, a)
    modifies t
    ensures Live(t, a) && b == a
    ensures t.counts == Inc(old(t.counts), a.ptr)
    ensures t.held == Inc(old(t.held), a.ptr)
    ensures t.texts == old(t.texts) && t.hashes == old(t.hashes) && t.next == old(t.next)
  {
    t.AddRef(a.ptr);
    t.Hold(a.ptr);
    b := Atom(a.ptr);
  }

  /** `impl Drop for Atom`: the handle gives up its one reference. Nothing
      else in the table changes. */
  method Drop(t: AtomTable, a: Atom)
    requires Live(t, a)
    modifies t
    ensures t.Valid()
    ensures t.counts == Dec(old(t.counts), a.ptr)
    ensures t.held == Dec(old(t.held), a.ptr)
    ensures t.texts == old(t.texts) && t.hashes == old(t.hashes) && t.next == old(t.next)
  {
    t.Unhold(a.ptr);
    t.Release(a.ptr);
  }

  /** `Atom::get_hash`: the table's hash of the entry, which depends on the
      entry's text only and is not computed by the crate. */
  function GetHash(t: AtomTable, a: Atom): (h: u32)
    reads t
    requires Live(t, a)
    ensures h == t.hashOf(t.texts[a.ptr])
  {
    t.GetHash(a.ptr)
  }

  /** `Atom::as_slice`: the entry's code units, whose length fits the `u32`
      the table reports it in. */
  function AsSlice(t: AtomTable, a: Atom): (u: seq<u16>)
    reads t
    requires Live(t, a)
    ensures u == t.texts[a.ptr] && |u| <= U32_MAX
  {
    t.GetUTF16String(a.ptr)
  }

  /** `Atom::chars`: the lazy decode of the entry's code units. It yields
      only scalars exactly when the units are well-formed UTF-16. */
  function Chars(t: AtomTable, a: Atom): (r: seq<DecodeResult>)
    reads t
    requires Live(t, a)
    ensures AllOk(r) <==> WellFormed(AsSlice(t, a))
    ensures |r| <= |AsSlice(t, a)|
  {
    DecodeAllOkIffWellFormed(AsSlice(t, a));
    Decode(AsSlice(t, a))
  }

  /** `Atom::to_string`: strict; `None` stands for the panic of `unwrap` on
      an unpaired surrogate. On success it holds exactly the scalars of
      `Chars`, in order. */
  function ToString(t: AtomTable, a: Atom): (r: Option<string>)
    reads t
    requires Live(t, a)
    ensures r.Some? <==> AllOk(Chars(t, a))
    ensures r.Some? ==> Chars(t, a) == Oks(r.value) && Encode(r.value) == AsSlice(t, a)
  {
    Utf16.ToString(AsSlice(t, a))
  }

  /** `Atom::as_ptr`: the raw pointer; wrapping it again gives the same
      handle, and no reference changes hands. */
  function AsPtr(a: Atom): (p: Ptr)
    ensures Atom(p) == a
  {
    a.ptr
  }

  /** The derived `PartialEq` of `Atom`: pointer identity. */
  function AtomEq(a: Atom, b: Atom): (r: bool)
    ensures r <==> AsPtr(a) == AsPtr(b)
  {
    a == b
  }

  /** `impl Hash for Atom`: the hasher's input, modelled as the words
      written so far, gets the table's hash and nothing else. */
  function HashAtom(t: AtomTable, a: Atom, state: seq<u32>): (r: seq<u32>)
    reads t
    requires Live(t, a)
    ensures r == state + [t.hashOf(AsSlice(t, a))]
  {
    state + [GetHash(t, a)]
  }

  /** `Atom == str`, as written: a comparison of the common prefix of the
      atom's decode and the string's chars. For an atom holding `x` it holds
      exactly when one of `s` and `x` is a prefix of the other. */
  function EqStr(t: AtomTable, a: Atom, s: string): (r: bool)
    reads t
    requires Live(t, a)
    ensures r <==> forall k :: 0 <= k < |Chars(t, a)| && k < |s| ==> Chars(t, a)[k] == Ok(s[k])
    ensures forall x :: AsSlice(t, a) == Encode(x) ==> (r <==> s <= x || x <= s)
  {
    var r := AtomCompare.AtomEqStr(Chars(t, a), s);
    forall x | AsSlice(t, a) == Encode(x) ensures r <==> s <= x || x <= s {
      AtomCompare.AtomEqStrIsPrefixTest(x, s);
    }
    r
  }

  /** `str == Atom`, as written; the same prefix comparison. */
  function StrEq(t: AtomTable, s: string, a: Atom): (r: bool)
    reads t
    requires Live(t, a)
    ensures r <==> forall k :: 0 <= k < |s| && k < |Chars(t, a)| ==> Ok(s[k]) == Chars(t, a)[k]
  {
    AtomCompare.StrEqAtom(s, Chars(t, a))
  }

  /** Both argument orders give the same answer. */
  lemma EqStrSymmetric(t: AtomTable, a: Atom, s: string)
    requires Live(t, a)
    ensures StrEq(t, s, a) == EqStr(t, a, s)
  {
    AtomCompare.EqSymmetric(Chars(t, a), s);
  }

  /** The derived `PartialEq` of `Namespace`: equal exactly when the wrapped
      atoms are, that is, when they share the pointer. */
  function NamespaceEq(m: Namespace, n: Namespace): (r: bool)
    ensures r <==> AtomEq(m.atom, n.atom)
  {
    m == n
  }

  /** The derived `Hash` of `Namespace` hashes its one field. */
  function HashNamespace(t: AtomTable, n: Namespace, state: seq<u32>): (r: seq<u32>)
    reads t
    requires Live(t, n.atom)
    ensures r == state + [GetHash(t, n.atom)]
  {
    HashAtom(t, n.atom, state)
  }

  /** The derived `Clone` of `Namespace` clones its atom. */
  method CloneNamespace(t: AtomTable, n: Namespace) returns (m: Namespace)
    requires Live(t, n.atom)
    modifies t
    ensures Live(t, n.atom) && m == n
    ensures t.counts == Inc(old(t.counts), n.atom.ptr)
    ensures t.held == Inc(old(t.held), n.atom.ptr)
    ensures t.texts == old(t.texts) && t.hashes == old(t.hashes) && t.next == old(t.next)
  {
    var a := Clone(t, n.atom);
    m := Namespace(a);
  }

  /** Dropping a `Namespace` drops its atom. */
  method DropNamespace(t: AtomTable, n: Namespace)
    requires Live(t, n.atom)
    modifies t
    ensures t.Valid()
    ensures t.counts == Dec(old(t.counts), n.atom.ptr)
    ensures t.held == Dec(old(t.held), n.atom.ptr)
    ensures t.texts == old(t.texts) && t.hashes == old(t.hashes) && t.next == old(t.next)
  {
    Drop(t, n.atom);
  }

  /** A clone followed by a drop of either copy leaves the table as it was. */
  method CloneThenDrop(t: AtomTable, a: Atom, dropClone: bool)
    requires Live(t, a)
    modifies t
    ensures Live(t, a)
    ensures t.counts == old(t.counts) && t.held == old(t.held)
    ensures t.texts == old(t.texts) && t.hashes == old(t.hashes) && t.next == old(t.next)
  {
    var b := Clone(t, a);
    DecInc(old(t.counts), a.ptr);
    DecInc(old(t.held), a.ptr);
    if dropClone {
      Drop(t, b);
    } else {
      Drop(t, a);
    }
  }

  /** A clone hashes as its original does; the clone is dropped at the end
      of its scope, which leaves the table as it was. */
  method CloneHashesSame(t: AtomTable, a: Atom, state: seq<u32>) returns (original: seq<u32>, cloned: seq<u32>)
    requires Live(t, a)
    modifies t
    ensures original == cloned
    ensures Live(t, a)
    ensures t.counts == old(t.counts) && t.held == old(t.held)
    ensures t.texts == old(t.texts) && t.hashes == old(t.hashes) && t.next == old(t.next)
  {
    original := HashAtom(t, a, state);
    var b := Clone(t, a);
    cloned := HashAtom(t, b, state);
    DecInc(old(t.counts), a.ptr);
    DecInc(old(t.held), a.ptr);
    Drop(t, b);
  }

  /** Interning "abc" twice gives the same pointer; both atoms equal "abc"
      and neither equals "abd". */
  method InternTwice(t: AtomTable) returns (a: Atom, b: Atom)
    requires t.Valid()
    modifies t
    ensures Live(t, a) && Live(t, b)
    ensures AtomEq(a, b)
    ensures EqStr(t, a, "abc") && EqStr(t, b, "abc") && StrEq(t, "abc", a)
    ensures !EqStr(t, a, "abd") && !StrEq(t, "abd", b)
  {
    assert Utf8Len("abc") == 3;
    var r := FromStr(t, "abc");
    a := r.value;
    r := FromStr(t, "abc");
    b := r.value;
    EqStrSymmetric(t, a, "abc");
    EqStrSymmetric(t, b, "abd");
  }

  /** `Atom::from(s).to_string()` gives back `s` whenever construction does
      not panic. The temporary atom is dropped at the end of the expression,
      so every count is as before; the entry made for a new text stays in
      the table with count zero. */
  method FromThenToString(t: AtomTable, s: string) returns (r: Option<string>)
    requires t.Valid()
    modifies t
    ensures Utf8Len(s) <= U32_MAX ==> r == Some(s)
    ensures Utf8Len(s) > U32_MAX ==> r.None?
    ensures t.Valid()
    ensures forall q :: Count(t.counts, q) == Count(old(t.counts), q)
    ensures forall q :: Count(t.held, q) == Count(old(t.held), q)
  {
    var a := FromStr(t, s);
    if a.None? {
      return None;
    }
    r := ToString(t, a.value);
    ToStringEncode(s);
    Drop(t, a.value);
    DecIncCounts(old(t.counts), a.value.ptr);
    DecIncCounts(old(t.held), a.value.ptr);
  }
}
