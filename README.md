# gecko-atom in Dafny

A model of the `gecko-atom` crate (`src/lib.rs`). An `Atom` is a
reference-counted handle to one entry of Gecko's atom table. The table
interns strings and owns their storage and hashes. A `Namespace` wraps exactly
one `Atom`. The crate's logic sits around five foreign calls into that table.
The model replaces the table with a Dafny class, `GeckoTable.AtomTable`. For
each entry it keeps a reference count, the text as UTF-16 code units and a
32-bit hash. The class's methods `NewAtom`, `AddRef` and `Release`, and its
functions `GetHash` and `GetUTF16String`, stand for the five `Gecko_*`
functions.

Modules:

- `Wrappers` (wrappers.dfy): `Option`. A Rust panic is `None`. That covers the
  failed `assert!` in `Atom::from` and the `unwrap` in `Atom::to_string`.
- `Utf16` (utf16.dfy): `char::decode_utf16`, following section 2.2 of RFC 2781.
  An unpaired surrogate becomes an `Err` element and decoding goes on. Also
  `String::from_utf16`, the strict collection, and the UTF-16 encoder of
  section 2.1 of RFC 2781. Round-trip lemmas link decoding and encoding.
- `AtomCompare` (atom_compare.dfy): the `zip(...).all(...)` comparisons behind
  `Atom == str` and `str == Atom`, plus the exact comparison they evidently
  intend (see Findings).
- `GeckoTable` (gecko_table.dfy): the abstract table class with its invariant
  `Valid()`. The invariant says: one entry per text; each text's length fits
  in `u32`; each hash is the table's hash of the text; every handle the crate
  holds is backed by one unit of its entry's count. The module also holds
  `Inc`/`Dec` on count maps and lemmas about runs of `AddRef`/`Release` calls.
- `GeckoAtom` (gecko_atom.dfy): the crate's operations. Construction,
  `Clone`, `Drop`, `Hash`, `get_hash`, `as_slice`, `chars`, `to_string`,
  `as_ptr`, both `PartialEq<str>` impls, and the derived impls of `Atom` and
  `Namespace`.

`Atom` and `Namespace` are datatypes holding the pointer, as the Rust structs
do. So Dafny's `==` on them is the derived `PartialEq`: pointer identity. The
methods that change reference counts take the table and name it in `modifies`.
A ghost map `held` records how many handles the crate holds on each entry.
`Drop` requires a held handle, which stands for Rust's ownership rule that a
handle is dropped once.

## Model

| member | source | states |
|---|---|---|
| `Utf16.Decode` | src/lib.rs:66-68 | the lazy decode yields at most one item per code unit and at least one per two units |
| `Utf16.DecodeEncode` | src/lib.rs:66-68 | decoding the UTF-16 form of any string yields exactly its chars, in order, each as `Ok` |
| `Utf16.DecodeAllOkIffWellFormed` | src/lib.rs:66-68 | the decode has no `Err` exactly when no code unit is an unpaired surrogate (both directions) |
| `Utf16.Collect` | src/lib.rs:70-72 | collecting decode items into a string succeeds iff every item is `Ok`, and then the string holds exactly those scalars in order |
| `Utf16.EncodeInvertsDecode` | src/lib.rs:66-72 | when the decode is exactly the chars of a string, encoding that string gives back the original code units |
| `Utf16.ToString` | src/lib.rs:70-72 | the strict conversion succeeds iff the units are well-formed UTF-16; on success its text decodes to exactly the `Ok` items and encodes back to the units |
| `Utf16.ToStringEncode` | src/lib.rs:70-72 | the strict conversion of the UTF-16 form of a string is that string |
| `AtomCompare.AtomEqStr` | src/lib.rs:124-128 | `Atom == str` holds iff every pair in the zipped common prefix matches as `Ok(c)`; items past the shorter side are never compared |
| `AtomCompare.StrEqAtom` | src/lib.rs:130-134 | `str == Atom` holds iff every pair in the zipped common prefix matches |
| `AtomCompare.EqSymmetric` | src/lib.rs:124-134 | both argument orders give the same result |
| `AtomCompare.LoneSurrogateNeverEqual` | src/lib.rs:126 | an unpaired surrogate inside the compared prefix makes both comparisons false |
| `AtomCompare.EmptyStrEqualsEveryAtom` | src/lib.rs:124-134 | the empty string equals every atom in both orders |
| `AtomCompare.AtomEqStrIsPrefixTest` | src/lib.rs:124-128 | for an atom holding `a`, `atom == s` holds iff `s` is a prefix of `a` or `a` is a prefix of `s` |
| `AtomCompare.PrefixCounterexample` | src/lib.rs:126 | an atom for "abc" equals "ab" and "abcd" |
| `AtomCompare.AtomEqStrExact` | src/lib.rs:126 | the intended comparison holds iff the decode is exactly the string's chars as `Ok` items |
| `AtomCompare.AtomEqStrExactIffSameText` | src/lib.rs:126 | with the intended comparison, an atom holding `a` equals `s` iff `s == a` |
| `GeckoTable.Utf8Len` | src/lib.rs:139 | `str::len` is between one and four bytes per char |
| `GeckoTable.Utf16LenAtMostUtf8Len` | src/lib.rs:139-141 | a text's UTF-16 length never exceeds its UTF-8 length, so the asserted `u32` bound also bounds the table's stored length |
| `GeckoTable.DecInc` | src/lib.rs:87-104 | an AddRef followed by a Release on the same entry leaves every count unchanged |
| `GeckoTable.RunOpsNet` | src/lib.rs:87-104 | any completed run of AddRef/Release calls on one entry changes that count by (#AddRef − #Release) and changes no other entry |
| `GeckoTable.BalancedRunRestores` | src/lib.rs:87-104 | a run with as many releases as AddRefs, in any order, restores the table's counts exactly |
| `GeckoTable.RunOpsCompletes` | src/lib.rs:87-104 | a run of AddRef/Release calls completes whenever no prefix of it releases more than the entry had plus what the prefix added |
| `GeckoTable.BalancedRunKeepsCounts` | src/lib.rs:87-104 | a balanced run restores every count, read as zero for a missing entry, even on an entry the run's first `AddRef` creates |
| `GeckoTable.CloneThreeDropFourRestores` | src/lib.rs:87-104 | building one atom, whether or not its entry existed, cloning it three times and dropping all four handles in interleaved order completes and restores every count |
| `GeckoTable.AtomTable.NewAtom` | src/lib.rs:44 | interning returns the existing entry for an already-interned text, otherwise a fresh one; that entry's count rises by one; the stored text is the UTF-16 form |
| `GeckoTable.AtomTable.AddRef` | src/lib.rs:46 | exactly that entry's count rises by one |
| `GeckoTable.AtomTable.Release` | src/lib.rs:47 | exactly that entry's count falls by one; no reference a held handle relies on can be released |
| `GeckoTable.AtomTable.GetHash` | src/lib.rs:45 | the stored hash is the table's hash of the entry's text |
| `GeckoTable.AtomTable.GetUTF16String` | src/lib.rs:48 | the entry's code units fit the reported `u32` length, and no other entry holds the same units |
| `GeckoAtom.FromStr` | src/lib.rs:136-143 | panics (`None`, table untouched) iff the UTF-8 length exceeds 2^32−1; otherwise the result is a held handle on the entry for the text, with the count and held counts raised by one |
| `GeckoAtom.FromCow` | src/lib.rs:146-151 | same contract as `FromStr` |
| `GeckoAtom.FromString` | src/lib.rs:153-158 | same contract as `FromStr` |
| `GeckoAtom.Clone` | src/lib.rs:87-95 | returns the same pointer; that entry's count and held count rise by exactly one; texts, hashes and the allocation cursor unchanged |
| `GeckoAtom.Drop` | src/lib.rs:97-104 | that entry's count and held count fall by exactly one; texts, hashes and the allocation cursor unchanged |
| `GeckoAtom.GetHash` | src/lib.rs:52-56 | the hash is the table's hash of the entry's text, not computed by the crate |
| `GeckoAtom.AsSlice` | src/lib.rs:58-64 | the table's stored code units, whose length fits the `u32` length the table reports |
| `GeckoAtom.Chars` | src/lib.rs:66-68 | the decode is error-free iff the atom's units are well-formed UTF-16 |
| `GeckoAtom.ToString` | src/lib.rs:70-72 | succeeds iff `chars` has no `Err`; then it holds exactly the `Ok` scalars in order and encodes back to the stored units |
| `GeckoAtom.AsPtr` | src/lib.rs:74-76 | wrapping the returned pointer again gives the same handle |
| `GeckoAtom.AtomEq` | src/lib.rs:35-36 | derived `Atom == Atom` holds iff the pointers are equal |
| `GeckoAtom.HashAtom` | src/lib.rs:79-85 | `Hash` writes exactly one word into the hasher: the table's hash of the entry |
| `GeckoAtom.EqStr` | src/lib.rs:124-128 | `Atom == str` compares the zipped prefix; for an atom holding `x`, it holds iff one of `s` and `x` is a prefix of the other |
| `GeckoAtom.StrEq` | src/lib.rs:130-134 | `str == Atom` compares the zipped prefix |
| `GeckoAtom.EqStrSymmetric` | src/lib.rs:124-134 | `str == Atom` gives the same answer as `Atom == str` |
| `GeckoAtom.NamespaceEq` | src/lib.rs:37-38 | derived `Namespace == Namespace` holds iff the wrapped atoms are equal |
| `GeckoAtom.HashNamespace` | src/lib.rs:37-38 | derived `Hash` of a `Namespace` writes what its atom's hash writes |
| `GeckoAtom.CloneNamespace` | src/lib.rs:37-38 | derived `Clone` of a `Namespace` raises its atom's count by one and returns an equal value |
| `GeckoAtom.DropNamespace` | src/lib.rs:37-38 | dropping a `Namespace` releases its atom's one reference |
| `GeckoAtom.CloneThenDrop` | src/lib.rs:87-104 | a clone followed by a drop of either copy leaves counts, held counts, texts, hashes and the allocation cursor unchanged |
| `GeckoAtom.CloneHashesSame` | src/lib.rs:79-104 | a clone hashes exactly as its original; once the clone is dropped at scope end, counts, held counts, texts, hashes and the allocation cursor are as before and the original is still live |
| `GeckoAtom.InternTwice` | src/lib.rs:136-143 | interning "abc" twice yields the same pointer; both atoms equal "abc" in both orders, and neither equals "abd" |
| `GeckoAtom.FromThenToString` | src/lib.rs:136-143 | `Atom::from(s).to_string()` is `s` whenever construction does not panic; after the temporary is dropped the table is valid and every count and held count is as before |

## Findings

| source | as written | input that shows it | evidently intended | confidence | as-written member | corrected member |
|---|---|---|---|---|---|---|
| src/lib.rs:124-134 | `zip(...).all(...)` stops at the shorter side, so only the common prefix is compared | an atom for "abc" compared with "ab", with "abcd" or with "" gives true | equal iff the atom's decoded chars are exactly the string's chars (same length) | high; not executed | `AtomCompare.PrefixCounterexample` | `AtomCompare.AtomEqStrExactIffSameText` |

The handle-level comparisons `GeckoAtom.EqStr` and `GeckoAtom.StrEq` keep the
code's prefix behaviour, because that is what callers of the crate get.
`AtomCompare.AtomEqStrExact` is the corrected comparison. It is proved to
decide text equality for an interned string.

Two facts about the code shape the model:

- `Atom == str` compares only the common prefix (see Findings).
- `Atom == Atom` is derived on the raw pointer. So it is pointer identity and
  never decodes.

## Left out

- The interning table's internals: how it converts and stores UTF-8 input,
  how it hashes, and when it reclaims an entry. Hashing is an arbitrary
  function of the text, fixed when the table is made. An entry whose count
  reaches zero stays in the maps.
- Memory safety of `slice::from_raw_parts` and the lifetime of the borrowed
  view in `as_slice`. `AsSlice` returns the stored sequence, and reading
  requires a held handle.
- `unsafe impl Send`/`Sync`, and all concurrency.
- The `fmt::Debug` pointer formatting and both `HeapSizeOf` impls, which
  return 0. They are presentational or constant.
- The `ns!` and `atom!` macros. They expand to `Atom::from`, or a `Namespace`
  wrapping it, on string constants.
- Laziness and restartability of `chars`. The decode is a finite sequence
  computed all at once.
- `GeckoAtom.Drop`: Rust's ownership ensures each handle value is dropped
  once. The model counts held handles per pointer. So it forbids dropping
  more handles than are held, but it cannot tell two handles with the same
  pointer apart.
- The `Hasher`: it is modelled as the sequence of words written to it. The
  hasher's own mixing is not modelled.
