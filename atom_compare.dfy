/** The two `PartialEq` impls between an atom and a `str`. Both zip the
    atom's decoded items with the string's chars and require every zipped
    pair to match; `zip` stops at the shorter side, so what is compared is the
    common prefix only. */
module AtomCompare {
  import opened Utf16

  /** `impl PartialEq<str> for Atom`:
      `self.chars().zip(other.chars()).all(|(x, y)| x == Ok(y))`. */
  function AtomEqStr(atomChars: seq<DecodeResult>, s: string): (r: bool)
    ensures r <==> forall k :: 0 <= k < |atomChars| && k < |s| ==> atomChars[k] == Ok(s[k])
  {
    if atomChars == [] || s == [] then true
    else atomChars[0] == Ok(s[0]) && AtomEqStr(atomChars[1..], s[1..])
  }

  /** `impl PartialEq<Atom> for str`:
      `self.chars().zip(other.chars()).all(|(x, y)| Ok(x) == y)`. */
  function StrEqAtom(s: string, atomChars: seq<DecodeResult>): (r: bool)
    ensures r <==> forall k :: 0 <= k < |s| && k < |atomChars| ==> Ok(s[k]) == atomChars[k]
  {
    if s == [] || atomChars == [] then true
    else Ok(s[0]) == atomChars[0] && StrEqAtom(s[1..], atomChars[1..])
  }

  /** The comparison gives the same answer in both argument orders. */
  lemma EqSymmetric(atomChars: seq<DecodeResult>, s: string)
    ensures StrEqAtom(s, atomChars) == AtomEqStr(atomChars, s)
  {
  }

  /** An unpaired surrogate within the compared prefix equals no char, so the
      comparison fails. */
  lemma LoneSurrogateNeverEqual(atomChars: seq<DecodeResult>, s: string, k: nat)
    requires k < |atomChars| && k < |s| && atomChars[k].Err?
    ensures !AtomEqStr(atomChars, s) && !StrEqAtom(s, atomChars)
  {
  }

  /** As written, the comparison of an atom holding the text `a` with the
      string `s` holds exactly when one of the two is a prefix of the other. */
  lemma {:induction false} AtomEqStrIsPrefixTest(a: string, s: string)
    ensures AtomEqStr(Decode(Encode(a)), s) <==> (s <= a || a <= s)
  {
    DecodeEncode(a);
    var d := Decode(Encode(a));
    if AtomEqStr(d, s) {
      if |s| <= |a| {
        assert s == a[..|s|] by {
          forall k | 0 <= k < |s| ensures s[k] == a[k] { assert d[k] == Ok(s[k]); }
        }
      } else {
        assert a == s[..|a|] by {
          forall k | 0 <= k < |a| ensures s[k] == a[k] { assert d[k] == Ok(s[k]); }
        }
      }
    } else {
      var k :| 0 <= k < |d| && k < |s| && d[k] != Ok(s[k]);
      assert s[k] != a[k];
    }
  }

  /** The empty string equals every atom, whatever the atom holds. */
  lemma EmptyStrEqualsEveryAtom(atomChars: seq<DecodeResult>)
    ensures AtomEqStr(atomChars, "") && StrEqAtom("", atomChars)
  {
  }

  /** An atom for "abc" compares equal to "ab" and to "abcd", though neither
      is its text. */
  lemma PrefixCounterexample()
    ensures AtomEqStr(Decode(Encode("abc")), "ab")
    ensures AtomEqStr(Decode(Encode("abc")), "abcd")
    ensures "ab" != "abc" && "abcd" != "abc"
  {
    AtomEqStrIsPrefixTest("abc", "ab");
    AtomEqStrIsPrefixTest("abc", "abcd");
  }

  /** The comparison the impls evidently intend: the whole decode must be
      exactly the string's chars (what `Iterator::eq` on the two would give). */
  function AtomEqStrExact(atomChars: seq<DecodeResult>, s: string): (r: bool)
    ensures r <==> atomChars == Oks(s)
  {
    if atomChars == [] || s == [] then atomChars == [] && s == []
    else
      var r := atomChars[0] == Ok(s[0]) && AtomEqStrExact(atomChars[1..], s[1..]);
      assert atomChars == [atomChars[0]] + atomChars[1..];
      assert Oks(s) == [Ok(s[0])] + Oks(s[1..]);
      r
  }

  /** With the intended comparison, an atom holding `a` equals `s` exactly
      when `s` is `a`, character for character. */
  lemma {:induction false} AtomEqStrExactIffSameText(a: string, s: string)
    ensures AtomEqStrExact(Decode(Encode(a)), s) <==> s == a
  {
    DecodeEncode(a);
    if Oks(a) == Oks(s) {
      assert |a| == |s|;
      forall k | 0 <= k < |a| ensures a[k] == s[k] { assert Oks(a)[k] == Oks(s)[k]; }
    }
  }
}
