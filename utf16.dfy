/** UTF-16 as the atom table stores it: code units, the lazy decoder behind
    `Atom::chars` (`char::decode_utf16`, section 2.2 of RFC 2781, with lone
    surrogates reported per element instead of ending the decode), the strict
    conversion behind `Atom::to_string` (`String::from_utf16`), and the
    encoder of section 2.1 of RFC 2781 that the table applies to the text it
    is given. Rust's `char` and Dafny's `char` are both Unicode scalar values. */
module Utf16 {
  import opened Wrappers

  /** A UTF-16 code unit. */
  type u16 = x: int | 0 <= x < 0x1_0000

  predicate IsLead(u: u16) { 0xD800 <= u < 0xDC00 }

  predicate IsTrail(u: u16) { 0xDC00 <= u < 0xE000 }

  predicate IsSurrogate(u: u16) { IsLead(u) || IsTrail(u) }

  /** One item of `char::decode_utf16`: a scalar value, or the code unit of an
      unpaired surrogate (`DecodeUtf16Error::unpaired_surrogate`). */
  datatype DecodeResult = Ok(scalar: char) | Err(code: u16)

  /** A surrogate pair `W1 W2` stands for the scalar
      `((W1 & 0x3FF) << 10 | (W2 & 0x3FF)) + 0x10000`. */
  function Combine(lead: u16, trail: u16): (c: char)
    requires IsLead(lead) && IsTrail(trail)
    ensures 0x1_0000 <= c as int < 0x11_0000
  {
    ((lead - 0xD800) * 0x400 + (trail - 0xDC00) + 0x1_0000) as char
  }

  /** `char::decode_utf16`: a code unit outside the surrogate range is a
      scalar; a trailing surrogate first, a leading surrogate at the end, or a
      leading surrogate not followed by a trailing one is an `Err` carrying
      that unit, and in the last case the following unit is decoded afresh. */
  function Decode(u: seq<u16>): (r: seq<DecodeResult>)
    ensures |r| <= |u| <= 2 * |r|
    decreases |u|
  {
    if |u| == 0 then []
    else if !IsSurrogate(u[0]) then [Ok(u[0] as char)] + Decode(u[1..])
    else if IsTrail(u[0]) then [Err(u[0])] + Decode(u[1..])
    else if |u| == 1 then [Err(u[0])]
    else if !IsTrail(u[1]) then [Err(u[0])] + Decode(u[1..])
    else [Ok(Combine(u[0], u[1]))] + Decode(u[2..])
  }

  /** Section 2.1 of RFC 2781: one unit below U+10000, a surrogate pair above. */
  function EncodeScalar(c: char): seq<u16> {
    if c as int < 0x1_0000 then [c as int]
    else
      var v := c as int - 0x1_0000;
      [0xD800 + v / 0x400, 0xDC00 + v % 0x400]
  }

  /** The UTF-16 form of a string, as the table stores it. */
  function Encode(s: string): (r: seq<u16>)
    ensures |s| <= |r| <= 2 * |s|
  {
    if s == [] then [] else EncodeScalar(s[0]) + Encode(s[1..])
  }

  /** What the decoder yields for a well-formed string: every element `Ok`. */
  function Oks(s: string): (r: seq<DecodeResult>)
    ensures |r| == |s| && forall k :: 0 <= k < |s| ==> r[k] == Ok(s[k])
  {
    seq(|s|, k requires 0 <= k < |s| => Ok(s[k]))
  }

  /** Collecting the decoder's items into a `String`, stopping at the first
      error (`String::from_utf16`). */
  function Collect(rs: seq<DecodeResult>): (r: Option<string>)
    ensures r.Some? <==> forall k :: 0 <= k < |rs| ==> rs[k].Ok?
    ensures r.Some? ==> rs == Oks(r.value)
  {
    if rs == [] then Some([])
    else if rs[0].Err? then None
    else match Collect(rs[1..])
      case None => None
      case Some(t) =>
        var r := [rs[0].scalar] + t;
        OksCons(r);
        assert r[1..] == t;
        assert rs == [rs[0]] + rs[1..];
        Some(r)
  }

  /** The unit at `i` is a surrogate that is not half of a pair. */
  predicate LoneSurrogateAt(u: seq<u16>, i: nat)
    requires i < |u|
  {
    || (IsLead(u[i]) && !(i + 1 < |u| && IsTrail(u[i + 1])))
    || (IsTrail(u[i]) && !(0 < i && IsLead(u[i - 1])))
  }

  predicate WellFormed(u: seq<u16>) {
    forall i :: 0 <= i < |u| ==> !LoneSurrogateAt(u, i)
  }

  predicate AllOk(rs: seq<DecodeResult>) {
    forall k :: 0 <= k < |rs| ==> rs[k].Ok?
  }

  /** Decoding the unit(s) of one scalar yields that scalar and leaves the
      rest of the input to be decoded on its own. */
  lemma DecodeEncodeScalar(c: char, rest: seq<u16>)
    ensures Decode(EncodeScalar(c) + rest) == [Ok(c)] + Decode(rest)
  {
    var u := EncodeScalar(c) + rest;
    if c as int < 0x1_0000 {
      assert u[1..] == rest;
    } else {
      assert u[2..] == rest;
      var v := c as int - 0x1_0000;
      assert (v / 0x400) * 0x400 + v % 0x400 == v;
    }
  }

  /** Round trip: decoding the UTF-16 form of a string yields exactly its
      scalars, in order, with no error. */
  lemma {:induction false} DecodeEncode(s: string)
    ensures Decode(Encode(s)) == Oks(s)
  {
    if s != [] {
      DecodeEncodeScalar(s[0], Encode(s[1..]));
      DecodeEncode(s[1..]);
    }
  }

  /** Encoding the scalar of a surrogate pair gives back the pair. */
  lemma EncodeCombine(lead: u16, trail: u16)
    requires IsLead(lead) && IsTrail(trail)
    ensures EncodeScalar(Combine(lead, trail)) == [lead, trail]
  {
    var v := Combine(lead, trail) as int - 0x1_0000;
    assert v == (lead as int - 0xD800) * 0x400 + (trail as int - 0xDC00);
  }

  /** The `Ok` items of a non-empty string: its first char, then the rest. */
  lemma OksCons(t: string)
    requires |t| > 0
    ensures Oks(t) == [Ok(t[0])] + Oks(t[1..])
  {
  }

  /** A decode that starts with a non-surrogate unit: that unit encodes the
      first scalar, and the rest decodes to the remaining scalars. */
  lemma DecodeFirstUnit(u: seq<u16>, t: string)
    requires |u| > 0 && !IsSurrogate(u[0]) && Decode(u) == Oks(t)
    ensures |t| > 0 && EncodeScalar(t[0]) == [u[0]] && Decode(u[1..]) == Oks(t[1..])
  {
    OksCons(t);
    assert [Ok(u[0] as char)] + Decode(u[1..]) == [Ok(t[0])] + Oks(t[1..]);
  }

  /** A decode that starts with a surrogate that yields a scalar: it is a
      pair that encodes that scalar, and the rest decodes to the remaining
      scalars. */
  lemma DecodeFirstPair(u: seq<u16>, t: string)
    requires |u| > 0 && IsSurrogate(u[0]) && Decode(u) == Oks(t)
    ensures |u| > 1 && |t| > 0
    ensures EncodeScalar(t[0]) == [u[0], u[1]] && Decode(u[2..]) == Oks(t[1..])
  {
    OksCons(t);
    assert Decode(u)[0].Ok?;
    assert IsLead(u[0]) && |u| > 1 && IsTrail(u[1]);
    assert [Ok(Combine(u[0], u[1]))] + Decode(u[2..]) == [Ok(t[0])] + Oks(t[1..]);
    EncodeCombine(u[0], u[1]);
  }

  /** The other direction: whenever the decoder yields only scalars, encoding
      them gives back the code units, so decoding loses nothing. */
  lemma {:induction false} EncodeInvertsDecode(u: seq<u16>, t: string)
    requires Decode(u) == Oks(t)
    ensures Encode(t) == u
    decreases |u|
  {
    if |u| > 0 {
      if !IsSurrogate(u[0]) {
        DecodeFirstUnit(u, t);
        EncodeInvertsDecode(u[1..], t[1..]);
        assert u == [u[0]] + u[1..];
      } else {
        DecodeFirstPair(u, t);
        EncodeInvertsDecode(u[2..], t[1..]);
        assert u == [u[0], u[1]] + u[2..];
      }
    }
  }

  /** Removing a prefix that does not end in a leading surrogate does not
      change which later units are lone surrogates. */
  lemma LoneShift(u: seq<u16>, d: nat, i: nat)
    requires 1 <= d <= i < |u| && !IsLead(u[d - 1])
    ensures LoneSurrogateAt(u, i) <==> LoneSurrogateAt(u[d..], i - d)
  {
  }

  /** The decoder yields an error exactly when the input holds an unpaired
      surrogate: well-formed UTF-16 decodes without error, and every lone
      surrogate surfaces as an `Err`. */
  lemma {:induction false} DecodeAllOkIffWellFormed(u: seq<u16>)
    ensures AllOk(Decode(u)) <==> WellFormed(u)
    decreases |u|
  {
    if |u| > 0 {
      var d := Decode(u);
      if !IsSurrogate(u[0]) || (IsLead(u[0]) && |u| > 1 && IsTrail(u[1])) {
        var n := if !IsSurrogate(u[0]) then 1 else 2;
        assert d[1..] == Decode(u[n..]);
        DecodeAllOkIffWellFormed(u[n..]);
        assert !LoneSurrogateAt(u, 0);
        assert n == 2 ==> !LoneSurrogateAt(u, 1);
        forall i | n <= i < |u|
          ensures LoneSurrogateAt(u, i) <==> LoneSurrogateAt(u[n..], i - n)
        {
          LoneShift(u, n, i);
        }
        if WellFormed(u[n..]) {
          forall i | 0 <= i < |u| ensures !LoneSurrogateAt(u, i) {
            if i >= n { assert !LoneSurrogateAt(u[n..], i - n); }
          }
        }
        if WellFormed(u) {
          forall j | 0 <= j < |u| - n ensures !LoneSurrogateAt(u[n..], j) {
            assert !LoneSurrogateAt(u, j + n);
          }
        }
      } else {
        assert d[0].Err?;
        assert LoneSurrogateAt(u, 0);
      }
    }
  }

  /** `String::from_utf16`: the scalars of the decode when there is no
      unpaired surrogate, `None` (the error `Atom::to_string` unwraps)
      otherwise. */
  function ToString(u: seq<u16>): (r: Option<string>)
    ensures r.Some? <==> WellFormed(u)
    ensures r.Some? ==> Decode(u) == Oks(r.value) && Encode(r.value) == u
  {
    DecodeAllOkIffWellFormed(u);
    var r := Collect(Decode(u));
    if r.Some? then EncodeInvertsDecode(u, r.value); r else r
  }

  /** Round trip in the strict direction: the text of a string's UTF-16 form
      is that string. */
  lemma {:induction false} ToStringEncode(s: string)
    ensures ToString(Encode(s)) == Some(s)
  {
    var u := Encode(s);
    DecodeEncode(s);
    assert AllOk(Decode(u));
    var r := ToString(u);
    assert r.Some?;
    assert Oks(r.value) == Oks(s);
    assert |r.value| == |s|;
    assert forall k :: 0 <= k < |s| ==> r.value[k] == s[k] by {
      forall k | 0 <= k < |s| ensures r.value[k] == s[k] {
        assert Oks(r.value)[k] == Oks(s)[k];
      }
    }
    assert r.value == s;
  }
}
