/** The placeholder codec that `translate` wraps around every engine call:
    the excluded tokens are replaced by positional markers "1TP<i>T" before
    the call, and the markers are put back, ignoring case, afterwards. */
module Codec {
  import opened Text

  /** The marker for the token at position `i` (counted from 1). */
  function Marker(i: nat): string {
    "1TP" + NatToString(i) + "T"
  }

  /** What `get_placeholders` returns for `n`: the markers for 1..n. */
  function Placeholders(n: nat): seq<string> {
    seq(n, i requires 0 <= i < n => Marker(i + 1))
  }

  /** `get_placeholders`: appends one marker per position in a counted loop. */
  method GetPlaceholders(count: nat) returns (placeholders: seq<string>)
    ensures |placeholders| == count
    ensures forall i :: 0 <= i < count ==> placeholders[i] == "1TP" + NatToString(i + 1) + "T"
    ensures placeholders == Placeholders(count)
  {
    placeholders := [];
    var i := 1;
    while i <= count
      invariant 1 <= i <= count + 1
      invariant |placeholders| == i - 1
      invariant forall j :: 0 <= j < i - 1 ==> placeholders[j] == Marker(j + 1)
    {
      placeholders := placeholders + [Marker(i)];
      i := i + 1;
    }
  }

  /** Different positions get different markers. */
  lemma MarkerInjective(i: nat, j: nat)
    requires Marker(i) == Marker(j)
    ensures i == j
  {
    var a, b := Marker(i), Marker(j);
    assert a[3..|a| - 1] == NatToString(i);
    assert b[3..|b| - 1] == NatToString(j);
    NatToStringInjective(i, j);
  }

  /** The markers of one call are pairwise distinct. */
  lemma PlaceholdersDistinct(n: nat)
    ensures forall i, j :: 0 <= i < j < n ==> Placeholders(n)[i] != Placeholders(n)[j]
  {
    forall i, j | 0 <= i < j < n ensures Placeholders(n)[i] != Placeholders(n)[j] {
      if Marker(i + 1) == Marker(j + 1) {
        MarkerInjective(i + 1, j + 1);
      }
    }
  }

  /** The token list the source hard-codes before its filter runs; "%s"
      comes before "%" so that "%s" is protected as a whole. */
  const DefaultExcluded: seq<string> := ["%s", "%", "$", "#"]

  /** The markers for the default list, spelled out. */
  const DefaultMarkers: seq<string> := ["1TP1T", "1TP2T", "1TP3T", "1TP4T"]

  /** The replacement done before the engine call (after entity decoding):
      `str_replace($excluded, $placeholders, $text)`. */
  function Encode(text: string, excluded: seq<string>): string {
    ReplaceEach(text, excluded, Placeholders(|excluded|))
  }

  /** The replacement done after the engine call:
      `str_ireplace($placeholders, $excluded, $text)`. */
  function Decode(text: string, excluded: seq<string>): string {
    IReplaceEach(text, Placeholders(|excluded|), excluded)
  }

  lemma DefaultPlaceholders()
    ensures Placeholders(|DefaultExcluded|) == DefaultMarkers
  {
    var p := Placeholders(4);
    assert NatToString(1) == "1" && NatToString(2) == "2";
    assert NatToString(3) == "3" && NatToString(4) == "4";
    assert p[0] == Marker(1) == "1TP1T";
    assert p[1] == Marker(2) == "1TP2T";
    assert p[2] == Marker(3) == "1TP3T";
    assert p[3] == Marker(4) == "1TP4T";
  }

  /** Text "contains nothing that looks like a marker": no "1tp", in any
      case, anywhere in it. */
  ghost predicate MarkerFree(t: string) {
    forall i :: 0 <= i && i + 2 < |t| ==> !(t[i] == '1' && Lower(t[i + 1]) == 't' && Lower(t[i + 2]) == 'p')
  }

  // ---- a single-pass reference for the default codec ----
  //
  // Scan(t, lo, hi, ms) reads t once from the left, recognising the default
  // tokens with "%s" before "%"; a token with position j in [lo, hi) is
  // written as ms[j - 1], every other token as itself. With ms the default
  // markers, Scan(t, 1, 1, ms) is t, Scan(t, 1, 5, ms) is the fully encoded
  // text, and each replacement pass of the codec moves one bound by one.
  // Other marker lists stand for the encoded text after an engine changed
  // the case of its markers.

  /** The default token the scan recognises at the front of `t` (0: none). */
  ghost function TokenAt(t: string): (j: nat)
    requires |t| > 0
    ensures j <= 4
  {
    if t[0] == '%' && |t| >= 2 && t[1] == 's' then 1
    else if t[0] == '%' then 2
    else if t[0] == '$' then 3
    else if t[0] == '#' then 4
    else 0
  }

  ghost function Width(t: string): nat
    requires |t| > 0
  {
    if TokenAt(t) == 1 then 2 else 1
  }

  ghost function Piece(j: nat, lo: nat, hi: nat, ms: seq<string>): string
    requires 1 <= j <= 4
  {
    if lo <= j < hi && j <= |ms| then ms[j - 1] else DefaultExcluded[j - 1]
  }

  ghost function Front(t: string, lo: nat, hi: nat, ms: seq<string>): string
    requires |t| > 0
  {
    if TokenAt(t) == 0 then [t[0]] else Piece(TokenAt(t), lo, hi, ms)
  }

  ghost function Scan(t: string, lo: nat, hi: nat, ms: seq<string>): string
    decreases |t|
  {
    if |t| == 0 then "" else Front(t, lo, hi, ms) + Scan(t[Width(t)..], lo, hi, ms)
  }

  /** The markers as an engine may hand them back: the default markers, each
      in any mix of upper and lower case. */
  ghost predicate CaseVariants(ms: seq<string>) {
    |ms| == 4 && forall j :: 0 <= j < 4 ==> LowerStr(ms[j]) == LowerStr(DefaultMarkers[j])
  }

  lemma VariantAt(ms: seq<string>, j: nat, i: nat)
    requires CaseVariants(ms) && 1 <= j <= 4 && i < 5
    ensures |ms[j - 1]| == 5 && Lower(ms[j - 1][i]) == Lower(DefaultMarkers[j - 1][i])
  {
    LowerStrAt(DefaultMarkers[j - 1], ms[j - 1], i);
  }

  lemma DefaultMarkersAreVariants()
    ensures CaseVariants(DefaultMarkers)
  {
  }

  lemma {:induction false} ScanLiteral(t: string, lo: nat, ms: seq<string>)
    ensures Scan(t, lo, lo, ms) == t
    decreases |t|
  {
    if |t| > 0 {
      ScanLiteral(t[Width(t)..], lo, ms);
      assert Front(t, lo, lo, ms) == t[..Width(t)];
      assert t[..Width(t)] + t[Width(t)..] == t;
    }
  }

  lemma ScanHead(u: string, lo: nat, hi: nat, ms: seq<string>)
    requires |u| > 0 && CaseVariants(ms)
    ensures |Scan(u, lo, hi, ms)| > 0
    ensures TokenAt(u) == 0 ==> Scan(u, lo, hi, ms) == [u[0]] + Scan(u[1..], lo, hi, ms)
    ensures TokenAt(u) != 0 ==> Lower(Scan(u, lo, hi, ms)[0]) in {'1', '%', '$', '#'}
  {
    var j := TokenAt(u);
    if j != 0 && lo <= j < hi {
      VariantAt(ms, j, 0);
    }
  }

  /** The first replacement pass ("%s") yields Scan(t, 1, 2, DefaultMarkers). */
  lemma {:induction false} EncodeFirst(t: string)
    ensures Replace(t, "%s", "1TP1T") == Scan(t, 1, 2, DefaultMarkers)
    decreases |t|
  {
    if |t| > 0 {
      EncodeFirst(t[Width(t)..]);
      if TokenAt(t) == 1 {
        assert t == "%s" + t[2..];
        ReplaceFront(t[2..], "%s", "1TP1T");
      } else {
        assert Front(t, 1, 2, DefaultMarkers) == [t[0]];
        if |t| >= 2 {
          assert !(t[0 + 0] == "%s"[0] && t[0 + 1] == "%s"[1]);
        }
        assert !MatchAt(t, "%s", 0);
        if |t| >= 2 {
          assert Replace(t, "%s", "1TP1T") == [t[0]] + Replace(t[1..], "%s", "1TP1T");
        } else {
          assert t[1..] == "";
        }
      }
    }
  }

  /** Each later replacement pass (one-character tokens) moves the upper
      bound of the scan by one. */
  lemma {:induction false} EncodeStep(t: string, k: nat)
    requires 2 <= k <= 4
    ensures Replace(Scan(t, 1, k, DefaultMarkers), DefaultExcluded[k - 1], DefaultMarkers[k - 1])
         == Scan(t, 1, k + 1, DefaultMarkers)
    decreases |t|
  {
    var tok, mk, ms := DefaultExcluded[k - 1], DefaultMarkers[k - 1], DefaultMarkers;
    if |t| > 0 {
      var rest := t[Width(t)..];
      EncodeStep(rest, k);
      var f := Front(t, 1, k, ms);
      if TokenAt(t) == k {
        ReplaceFront(Scan(rest, 1, k, ms), tok, mk);
      } else {
        assert f == Front(t, 1, k + 1, ms);
        assert forall i :: 0 <= i < |f| ==> f[i] != tok[0];
        ReplaceSkip(f, Scan(rest, 1, k, ms), tok, mk);
      }
    }
  }

  /** With the default list, encoding is the single-pass scan. */
  lemma EncodeDefault(t: string)
    ensures Encode(t, DefaultExcluded) == Scan(t, 1, 5, DefaultMarkers)
  {
    DefaultPlaceholders();
    var e, m := DefaultExcluded, DefaultMarkers;
    assert e[1..][1..][1..][1..] == [] && m[1..][1..][1..][1..] == [];
    var s1 := Replace(t, e[0], m[0]);
    var s2 := Replace(s1, e[1], m[1]);
    var s3 := Replace(s2, e[2], m[2]);
    var s4 := Replace(s3, e[3], m[3]);
    assert Encode(t, e) == s4;
    EncodeFirst(t);
    EncodeStep(t, 2);
    EncodeStep(t, 3);
    EncodeStep(t, 4);
  }

  lemma MarkerFreeSuffix(t: string, n: nat)
    requires MarkerFree(t) && n <= |t|
    ensures MarkerFree(t[n..])
  {
    forall i | 0 <= i && i + 2 < |t[n..]|
      ensures !(t[n..][i] == '1' && Lower(t[n..][i + 1]) == 't' && Lower(t[n..][i + 2]) == 'p')
    {
      assert t[n..][i] == t[n + i] && t[n..][i + 1] == t[n + i + 1] && t[n..][i + 2] == t[n + i + 2];
    }
  }

  /** A plain '1' in marker-free text does not start a marker of the
      partially decoded scan. */
  lemma PlainOneIsNotMarker(t: string, k: nat, ms: seq<string>)
    requires 1 <= k <= 4 && MarkerFree(t) && CaseVariants(ms)
    requires |t| > 0 && TokenAt(t) == 0
    ensures !IMatchAt([t[0]] + Scan(t[1..], k, 5, ms), DefaultMarkers[k - 1], 0)
  {
    var mk := DefaultMarkers[k - 1];
    var s := [t[0]] + Scan(t[1..], k, 5, ms);
    if |s| >= 5 {
      assert |t| >= 2;
      ScanHead(t[1..], k, 5, ms);
      if TokenAt(t[1..]) != 0 || Lower(t[1]) != 't' {
        assert Lower(s[0 + 1]) != Lower(mk[1]);
      } else {
        assert s == [t[0]] + [t[1]] + Scan(t[2..], k, 5, ms);
        assert |t| >= 3;
        assert t[1..][1..] == t[2..];
        ScanHead(t[2..], k, 5, ms);
        if TokenAt(t[2..]) != 0 || Lower(t[2]) != 'p' {
          assert Lower(s[0 + 2]) != Lower(mk[2]);
        } else {
          assert Lower(s[0 + 0]) != Lower(mk[0]);
        }
      }
    }
  }

  /** A marker for a later position, in any case, is copied by the current
      decoding pass. */
  lemma LaterMarkerSkipped(j: nat, k: nat, r: string, i: nat, ms: seq<string>)
    requires 1 <= k < j <= 4 && i < 5 && CaseVariants(ms)
    ensures !IMatchAt(ms[j - 1] + r, DefaultMarkers[k - 1], i)
  {
    var f, mk := ms[j - 1], DefaultMarkers[k - 1];
    var s := f + r;
    VariantAt(ms, j, i);
    if i == 0 {
      VariantAt(ms, j, 3);
      assert s[0 + 3] == f[3] && Lower(f[3]) != Lower(mk[3]);
    } else {
      assert s[i] == f[i];
      NoIMatchByFirst(s, mk, i);
    }
  }

  /** A token already restored by an earlier pass is copied by the current one. */
  lemma RestoredTokenSkipped(j: nat, k: nat, r: string, i: nat)
    requires 1 <= j < k <= 4 && i < |DefaultExcluded[j - 1]|
    ensures !IMatchAt(DefaultExcluded[j - 1] + r, DefaultMarkers[k - 1], i)
  {
    var f, mk := DefaultExcluded[j - 1], DefaultMarkers[k - 1];
    assert (f + r)[i] == f[i];
    NoIMatchByFirst(f + r, mk, i);
  }

  /** Each decoding pass, on marker-free text whose markers are in any case,
      moves the lower bound of the scan by one. */
  lemma {:induction false} DecodeStep(t: string, k: nat, ms: seq<string>)
    requires 1 <= k <= 4 && MarkerFree(t) && CaseVariants(ms)
    ensures IReplace(Scan(t, k, 5, ms), DefaultMarkers[k - 1], DefaultExcluded[k - 1]) == Scan(t, k + 1, 5, ms)
    decreases |t|
  {
    var tok, mk := DefaultExcluded[k - 1], DefaultMarkers[k - 1];
    if |t| > 0 {
      var rest := t[Width(t)..];
      MarkerFreeSuffix(t, Width(t));
      DecodeStep(rest, k, ms);
      var f, r := Front(t, k, 5, ms), Scan(rest, k, 5, ms);
      var j := TokenAt(t);
      if j == k {
        IReplaceFront(ms[k - 1], r, mk, tok);
      } else {
        assert f == Front(t, k + 1, 5, ms);
        if j == 0 {
          assert f == [t[0]];
          if t[0] == '1' {
            PlainOneIsNotMarker(t, k, ms);
            assert t[1..] == rest;
          } else {
            NoIMatchByFirst(f + r, mk, 0);
          }
        } else if j > k {
          forall i | 0 <= i < |f| ensures !IMatchAt(f + r, mk, i) {
            VariantAt(ms, j, 0);
            LaterMarkerSkipped(j, k, r, i, ms);
          }
        } else {
          forall i | 0 <= i < |f| ensures !IMatchAt(f + r, mk, i) {
            RestoredTokenSkipped(j, k, r, i);
          }
        }
        IReplaceSkip(f, r, mk, tok);
      }
    }
  }

  /** Decoding restores marker-free text from its encoded form even when
      the engine changed the case of any of the markers: `ms` holds the
      markers as the engine wrote them. */
  lemma DecodeAnyCase(t: string, ms: seq<string>)
    requires MarkerFree(t) && CaseVariants(ms)
    ensures Decode(Scan(t, 1, 5, ms), DefaultExcluded) == t
  {
    DefaultPlaceholders();
    var e, m := DefaultExcluded, DefaultMarkers;
    assert e[1..][1..][1..][1..] == [] && m[1..][1..][1..][1..] == [];
    var s0 := Scan(t, 1, 5, ms);
    var s1 := IReplace(s0, m[0], e[0]);
    var s2 := IReplace(s1, m[1], e[1]);
    var s3 := IReplace(s2, m[2], e[2]);
    var s4 := IReplace(s3, m[3], e[3]);
    assert Decode(s0, e) == s4;
    DecodeStep(t, 1, ms);
    DecodeStep(t, 2, ms);
    DecodeStep(t, 3, ms);
    DecodeStep(t, 4, ms);
    ScanLiteral(t, 5, ms);
  }

  /** The placeholder round trip for the default list: when the engine
      hands the markers back untouched, decoding restores the (entity
      decoded) text, provided it holds nothing marker-like. */
  lemma RoundTrip(t: string)
    requires MarkerFree(t)
    ensures Decode(Encode(t, DefaultExcluded), DefaultExcluded) == t
  {
    EncodeDefault(t);
    DefaultMarkersAreVariants();
    DecodeAnyCase(t, DefaultMarkers);
  }

  lemma {:induction false} ScanEncodedClean(t: string)
    ensures var r := Scan(t, 1, 5, DefaultMarkers); '%' !in r && '$' !in r && '#' !in r
    decreases |t|
  {
    if |t| > 0 {
      ScanEncodedClean(t[Width(t)..]);
    }
  }

  /** With the default list, the encoded text holds no '%', '$' or '#'. */
  lemma EncodedHasNoExcludedChar(t: string)
    ensures var r := Encode(t, DefaultExcluded); '%' !in r && '$' !in r && '#' !in r
  {
    EncodeDefault(t);
    ScanEncodedClean(t);
  }

  /** Text none of whose characters is '1' is left alone by a decoding pass. */
  lemma NoOneUntouched(s: string, mk: string, tok: string)
    requires |mk| > 0 && mk[0] == '1'
    requires forall i :: 0 <= i < |s| ==> s[i] != '1'
    ensures IReplace(s, mk, tok) == s
  {
    forall i ensures !IMatchAt(s, mk, i) {
      if 0 <= i < |s| {
        NoIMatchByFirst(s, mk, i);
      }
    }
  }

  /** "%s" is protected as one token, not as "%" followed by "s". */
  lemma PercentSIsOneToken()
    ensures Encode("%s", DefaultExcluded) == "1TP1T"
  {
    EncodeDefault("%s");
    assert TokenAt("%s") == 1 && "%s"[2..] == "";
  }

  /** Markers come back whatever case the engine gives them. */
  lemma DecodeIgnoresCase()
    ensures Decode("1tp2t", DefaultExcluded) == "%"
  {
    DefaultPlaceholders();
    var e, m := DefaultExcluded, DefaultMarkers;
    assert e[1..][1..][1..][1..] == [] && m[1..][1..][1..][1..] == [];
    var s0 := "1tp2t";
    assert !IMatchAt(s0, m[0], 0) by { assert Lower(s0[0 + 3]) != Lower(m[0][3]); }
    assert IReplace(s0, m[0], e[0]) == [s0[0]] + IReplace(s0[1..], m[0], e[0]);
    assert IReplace(s0, m[0], e[0]) == s0;
    assert IMatchAt(s0, m[1], 0);
    assert IReplace(s0, m[1], e[1]) == "%" + IReplace(s0[5..], m[1], e[1]);
    assert IReplace(s0, m[1], e[1]) == "%";
    assert IReplace("%", m[2], e[2]) == "%";
    assert IReplace("%", m[3], e[3]) == "%";
  }

  /** Marker-like text breaks the round trip: "1TP%" is encoded as
      "1TP1TP2T" and comes back as "%sP2T". */
  lemma MarkerLikeTextBreaksRoundTrip()
    ensures Encode("1TP%", DefaultExcluded) == "1TP1TP2T"
    ensures Decode("1TP1TP2T", DefaultExcluded) == "%sP2T"
  {
    EncodeMarkerLike();
    DecodeMarkerLike();
  }

  lemma EncodeMarkerLike()
    ensures Encode("1TP%", DefaultExcluded) == "1TP1TP2T"
  {
    var t := "1TP%";
    assert Scan(t, 1, 5, DefaultMarkers) == "1TP1TP2T" by {
    assert TokenAt("%") == 2 && "%"[1..] == "";
    assert Scan("%", 1, 5, DefaultMarkers) == "1TP2T" + Scan("", 1, 5, DefaultMarkers);
    assert TokenAt("P%") == 0 && "P%"[1..] == "%";
    assert Scan("P%", 1, 5, DefaultMarkers) == "P" + Scan("%", 1, 5, DefaultMarkers);
    assert TokenAt("TP%") == 0 && "TP%"[1..] == "P%";
    assert Scan("TP%", 1, 5, DefaultMarkers) == "T" + Scan("P%", 1, 5, DefaultMarkers);
    assert TokenAt(t) == 0 && t[1..] == "TP%";
    assert Scan(t, 1, 5, DefaultMarkers) == "1" + Scan("TP%", 1, 5, DefaultMarkers);
    }
    EncodeDefault(t);
  }

  lemma DecodeMarkerLike()
    ensures Decode("1TP1TP2T", DefaultExcluded) == "%sP2T"
  {
    DefaultPlaceholders();
    var e, m := DefaultExcluded, DefaultMarkers;
    assert e[1..][1..][1..][1..] == [] && m[1..][1..][1..][1..] == [];
    var s0, s1 := "1TP1TP2T", "%sP2T";
    assert IMatchAt(s0, m[0], 0);
    assert s0[5..] == "P2T";
    assert IReplace(s0, m[0], e[0]) == s1;
    NoOneUntouched(s1, m[1], e[1]);
    NoOneUntouched(s1, m[2], e[2]);
    NoOneUntouched(s1, m[3], e[3]);
    assert Decode(s0, e) == IReplace(IReplace(IReplace(IReplace(s0, m[0], e[0]), m[1], e[1]), m[2], e[2]), m[3], e[3]);
  }
}
