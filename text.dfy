/** The few PHP string built-ins the translator relies on: `empty()` on a
    string, ASCII case folding, `str_replace` and `str_ireplace` (single
    search string and the array form), and the decimal rendering of an
    integer that string concatenation performs. */
module Text {

  /** PHP's `empty()` on a string: true for "" and also for "0". */
  predicate Blank(s: string) {
    s == "" || s == "0"
  }

  /** "" and "0" are empty; other strings, even "00", " " or "0.0", are not. */
  lemma BlankCases()
    ensures Blank("") && Blank("0")
    ensures !Blank("00") && !Blank(" ") && !Blank("0.0") && !Blank("false")
  {
  }

  /** ASCII lower-casing, the folding PHP's case-insensitive functions use since PHP 8.2. */
  function Lower(c: char): char {
    if 'A' <= c <= 'Z' then (c as int + 32) as char else c
  }

  /** Only the 26 ASCII capitals change; accented and other letters are
      left as they are. */
  lemma LowerIsAscii(c: char)
    ensures Lower(c) != c <==> 'A' <= c <= 'Z'
    ensures Lower('Q') == 'q' && Lower('\U{C4}') == '\U{C4}'
  {
  }

  function LowerStr(s: string): string {
    seq(|s|, i requires 0 <= i < |s| => Lower(s[i]))
  }

  /** `pat` occurs in `s` starting at position `i`. */
  predicate MatchAt(s: string, pat: string, i: int) {
    0 <= i && i + |pat| <= |s| && forall k :: 0 <= k < |pat| ==> s[i + k] == pat[k]
  }

  /** `pat` occurs in `s` at position `i`, ignoring ASCII case. */
  predicate IMatchAt(s: string, pat: string, i: int) {
    0 <= i && i + |pat| <= |s| && forall k :: 0 <= k < |pat| ==> Lower(s[i + k]) == Lower(pat[k])
  }

  /** `str_replace(pat, rep, s)` for one search string: scan left to right
      and replace every non-overlapping occurrence; an empty search string
      leaves the subject alone. */
  function Replace(s: string, pat: string, rep: string): string
    decreases |s|
  {
    if |pat| == 0 || |s| < |pat| then s
    else if MatchAt(s, pat, 0) then rep + Replace(s[|pat|..], pat, rep)
    else [s[0]] + Replace(s[1..], pat, rep)
  }

  /** `str_ireplace(pat, rep, s)` for one search string: like `Replace`, but
      an occurrence is found ignoring ASCII case; the replacement is inserted
      as it is. */
  function IReplace(s: string, pat: string, rep: string): string
    decreases |s|
  {
    if |pat| == 0 || |s| < |pat| then s
    else if IMatchAt(s, pat, 0) then rep + IReplace(s[|pat|..], pat, rep)
    else [s[0]] + IReplace(s[1..], pat, rep)
  }

  /** Dropping the first character shifts every position by one. */
  lemma MatchShift(s: string, pat: string, i: int)
    requires |s| > 0 && 0 <= i
    ensures MatchAt(s[1..], pat, i) == MatchAt(s, pat, i + 1)
  {
  }

  /** A search string that does not occur leaves the subject unchanged. */
  lemma {:induction false} ReplaceAbsent(s: string, pat: string, rep: string)
    requires forall i :: !MatchAt(s, pat, i)
    ensures Replace(s, pat, rep) == s
    decreases |s|
  {
    if |pat| > 0 && |s| >= |pat| {
      assert !MatchAt(s, pat, 0);
      forall i ensures !MatchAt(s[1..], pat, i) {
        if 0 <= i {
          MatchShift(s, pat, i);
        }
      }
      ReplaceAbsent(s[1..], pat, rep);
      assert [s[0]] + s[1..] == s;
    }
  }

  /** The same for the case-insensitive replacement. */
  lemma {:induction false} IReplaceAbsent(s: string, pat: string, rep: string)
    requires forall i :: !IMatchAt(s, pat, i)
    ensures IReplace(s, pat, rep) == s
    decreases |s|
  {
    if |pat| > 0 && |s| >= |pat| {
      assert !IMatchAt(s, pat, 0);
      forall i ensures !IMatchAt(s[1..], pat, i) {
        if 0 <= i {
          IMatchShift(s, pat, i);
        }
      }
      IReplaceAbsent(s[1..], pat, rep);
      assert [s[0]] + s[1..] == s;
    }
  }

  /** The replacement PHP pairs with the first search string of the array
      form: the first element of `replace`, or "" when it has run out. */
  function FirstOr(replace: seq<string>): string {
    if |replace| > 0 then replace[0] else ""
  }

  function Rest(replace: seq<string>): seq<string> {
    if |replace| > 0 then replace[1..] else []
  }

  /** Search strings without a replacement are replaced by "": an empty
      replacement array acts as an array of empty strings. */
  lemma {:induction false} ReplaceEachPadsWithEmpty(s: string, search: seq<string>)
    ensures ReplaceEach(s, search, []) == ReplaceEach(s, search, seq(|search|, _ => ""))
    decreases |search|
  {
    if |search| > 0 {
      var blanks := seq(|search|, _ => "");
      assert FirstOr(blanks) == "" && Rest(blanks) == seq(|search| - 1, _ => "");
      ReplaceEachPadsWithEmpty(Replace(s, search[0], ""), search[1..]);
    }
  }

  /** `str_replace(search, replace, s)` with arrays: each search string in
      order, applied to the result of the previous one. */
  function ReplaceEach(s: string, search: seq<string>, replace: seq<string>): string
    decreases |search|
  {
    if |search| == 0 then s
    else ReplaceEach(Replace(s, search[0], FirstOr(replace)), search[1..], Rest(replace))
  }

  /** `str_ireplace(search, replace, s)` with arrays. */
  function IReplaceEach(s: string, search: seq<string>, replace: seq<string>): string
    decreases |search|
  {
    if |search| == 0 then s
    else IReplaceEach(IReplace(s, search[0], FirstOr(replace)), search[1..], Rest(replace))
  }

  /** The decimal digits of `n`, as PHP's `'…' . $i` renders an integer. */
  function NatToString(n: nat): (r: string)
    ensures |r| >= 1
    ensures n >= 10 ==> |r| >= 2
    decreases n
  {
    if n < 10 then ["0123456789"[n]]
    else NatToString(n / 10) + ["0123456789"[n % 10]]
  }

  /** Different numbers are rendered differently. */
  lemma {:induction false} NatToStringInjective(a: nat, b: nat)
    requires NatToString(a) == NatToString(b)
    ensures a == b
    decreases a
  {
    if a < 10 && b < 10 {
      assert NatToString(a)[0] == "0123456789"[a];
    } else if a >= 10 && b >= 10 {
      var sa, sb := NatToString(a), NatToString(b);
      assert sa[|sa| - 1] == "0123456789"[a % 10];
      assert sb[|sb| - 1] == "0123456789"[b % 10];
      assert sa[..|sa| - 1] == NatToString(a / 10);
      assert sb[..|sb| - 1] == NatToString(b / 10);
      NatToStringInjective(a / 10, b / 10);
    }
  }

  /** A search string that never occurs leaves the subject of the array form
      untouched, whatever it would have been replaced with. */
  lemma {:induction false} ReplaceEachAbsent(s: string, search: seq<string>, replace: seq<string>)
    requires forall k, i :: 0 <= k < |search| ==> !MatchAt(s, search[k], i)
    ensures ReplaceEach(s, search, replace) == s
    decreases |search|
  {
    if |search| > 0 {
      assert forall i :: !MatchAt(s, search[0], i);
      ReplaceAbsent(s, search[0], FirstOr(replace));
      ReplaceEachAbsent(s, search[1..], Rest(replace));
    }
  }

  /** The same for the case-insensitive array form. */
  lemma {:induction false} IReplaceEachAbsent(s: string, search: seq<string>, replace: seq<string>)
    requires forall k, i :: 0 <= k < |search| ==> !IMatchAt(s, search[k], i)
    ensures IReplaceEach(s, search, replace) == s
    decreases |search|
  {
    if |search| > 0 {
      assert forall i :: !IMatchAt(s, search[0], i);
      IReplaceAbsent(s, search[0], FirstOr(replace));
      IReplaceEachAbsent(s, search[1..], Rest(replace));
    }
  }

  // ---- small facts about one replacement step, used by the codec proofs ----

  /** A position that is not an occurrence is copied, and the scan moves on. */
  lemma ReplaceStep(s: string, pat: string, rep: string)
    requires |pat| > 0 && |s| > 0 && !MatchAt(s, pat, 0)
    ensures Replace(s, pat, rep) == [s[0]] + Replace(s[1..], pat, rep)
  {
    if |s| < |pat| {
      assert s == [s[0]] + s[1..];
    }
  }

  /** A prefix none of whose characters starts the search string is copied. */
  lemma {:induction false} ReplaceSkip(p: string, r: string, pat: string, rep: string)
    requires |pat| > 0
    requires forall i :: 0 <= i < |p| ==> p[i] != pat[0]
    ensures Replace(p + r, pat, rep) == p + Replace(r, pat, rep)
    decreases |p|
  {
    if |p| == 0 {
      assert p + r == r;
    } else {
      var s := p + r;
      assert s[1..] == p[1..] + r;
      assert s[0 + 0] == p[0];
      ReplaceStep(s, pat, rep);
      ReplaceSkip(p[1..], r, pat, rep);
      var tail := Replace(r, pat, rep);
      assert [p[0]] + p[1..] == p;
      assert [p[0]] + (p[1..] + tail) == ([p[0]] + p[1..]) + tail;
    }
  }

  /** An occurrence at the front is replaced, and the scan goes on after it. */
  lemma ReplaceFront(r: string, pat: string, rep: string)
    requires |pat| > 0
    ensures Replace(pat + r, pat, rep) == rep + Replace(r, pat, rep)
  {
    assert MatchAt(pat + r, pat, 0);
    assert (pat + r)[|pat|..] == r;
  }

  /** The case-insensitive counterpart of `ReplaceStep`. */
  lemma IReplaceStep(s: string, pat: string, rep: string)
    requires |pat| > 0 && |s| > 0 && !IMatchAt(s, pat, 0)
    ensures IReplace(s, pat, rep) == [s[0]] + IReplace(s[1..], pat, rep)
  {
    if |s| < |pat| {
      assert s == [s[0]] + s[1..];
    }
  }

  /** A prefix at none of whose positions the search string occurs (ignoring
      case) is copied by the case-insensitive replacement. */
  lemma {:induction false} IReplaceSkip(p: string, r: string, pat: string, rep: string)
    requires |pat| > 0
    requires forall i :: 0 <= i < |p| ==> !IMatchAt(p + r, pat, i)
    ensures IReplace(p + r, pat, rep) == p + IReplace(r, pat, rep)
    decreases |p|
  {
    if |p| == 0 {
      assert p + r == r;
    } else {
      var s := p + r;
      assert s[1..] == p[1..] + r;
      forall i | 0 <= i < |p[1..]| ensures !IMatchAt(p[1..] + r, pat, i) {
        IMatchShift(s, pat, i);
      }
      assert !IMatchAt(s, pat, 0);
      IReplaceStep(s, pat, rep);
      IReplaceSkip(p[1..], r, pat, rep);
      var tail := IReplace(r, pat, rep);
      assert [p[0]] + p[1..] == p;
      assert [p[0]] + (p[1..] + tail) == ([p[0]] + p[1..]) + tail;
    }
  }

  /** The case-insensitive counterpart of `MatchShift`. */
  lemma IMatchShift(s: string, pat: string, i: int)
    requires |s| > 0 && 0 <= i
    ensures IMatchAt(s[1..], pat, i) == IMatchAt(s, pat, i + 1)
  {
  }

  /** The case-insensitive counterpart of `ReplaceFront`: an occurrence at
      the front, in whatever case, is replaced by the replacement as given. */
  lemma IReplaceFront(m: string, r: string, pat: string, rep: string)
    requires |pat| > 0 && LowerStr(m) == LowerStr(pat)
    ensures IReplace(m + r, pat, rep) == rep + IReplace(r, pat, rep)
  {
    forall k | 0 <= k < |pat| ensures Lower((m + r)[0 + k]) == Lower(pat[k]) {
      LowerStrAt(m, pat, k);
    }
    assert IMatchAt(m + r, pat, 0);
    assert (m + r)[|pat|..] == r;
  }

  /** Strings equal after lower-casing have the same length and agree,
      ignoring case, position by position. */
  lemma LowerStrAt(a: string, b: string, i: int)
    requires LowerStr(a) == LowerStr(b) && 0 <= i < |a|
    ensures |a| == |b| && Lower(a[i]) == Lower(b[i])
  {
    assert |a| == |LowerStr(a)| == |LowerStr(b)| == |b|;
    assert LowerStr(a)[i] == LowerStr(b)[i];
  }

  /** A position whose character differs, ignoring case, from the first
      character of the search string is not an occurrence. */
  lemma NoIMatchByFirst(s: string, pat: string, i: int)
    requires |pat| > 0 && 0 <= i < |s|
    requires Lower(s[i]) != Lower(pat[0])
    ensures !IMatchAt(s, pat, i)
  {
    if i + |pat| <= |s| {
      assert Lower(s[i + 0]) != Lower(pat[0]);
    }
  }
}
