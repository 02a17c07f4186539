/** Domain-name strings: trimming, normalisation, and suffix tests against label sequences. */
module ZoneNames {
  import opened Basics
  import Utf8

  // ----- Rust string primitives -----

  /** `char::is_whitespace`: the Unicode White_Space property. */
  predicate IsWhitespace(c: char) {
    var n := c as int;
    0x9 <= n <= 0xD || n == 0x20 || n == 0x85 || n == 0xA0 || n == 0x1680 || 0x2000 <= n <= 0x200A ||
    n == 0x2028 || n == 0x2029 || n == 0x202F || n == 0x205F || n == 0x3000
  }

  /** The code points of the White_Space property, one by one. */
  lemma WhitespaceExactly(c: char)
    ensures IsWhitespace(c) <==>
            c as int in {9, 10, 11, 12, 13, 32, 133, 160, 5760, 8192, 8193, 8194, 8195, 8196, 8197, 8198, 8199, 8200,
                         8201, 8202, 8232, 8233, 8239, 8287, 12288}
  {
  }

  function TrimStart(s: string): string {
    if |s| > 0 && IsWhitespace(s[0]) then TrimStart(s[1..]) else s
  }

  function TrimEnd(s: string): string {
    if |s| > 0 && IsWhitespace(s[|s| - 1]) then TrimEnd(s[..|s| - 1]) else s
  }

  function Trim(s: string): string { TrimEnd(TrimStart(s)) }

  /** `trim_end_matches('.')`. */
  function TrimDots(s: string): (r: string)
    ensures r <= s && (|r| > 0 ==> r[|r| - 1] != '.')
  {
    if |s| > 0 && s[|s| - 1] == '.' then TrimDots(s[..|s| - 1]) else s
  }

  /** Puts a character in front of the first piece. */
  function Prepend(c: char, pieces: seq<string>): (r: seq<string>)
    requires |pieces| > 0
    ensures |r| == |pieces|
  {
    [[c] + pieces[0]] + pieces[1..]
  }

  /** `split`: the pieces between the separators. */
  function Split(sep: char, s: string): (pieces: seq<string>)
    ensures |pieces| > 0
  {
    if |s| == 0 then [""]
    else if s[0] == sep then [""] + Split(sep, s[1..])
    else Prepend(s[0], Split(sep, s[1..]))
  }

  function LowerChar(c: char): (r: char)
    ensures r == '.' <==> c == '.'
  {
    if 'A' <= c <= 'Z' then (c as int + 32) as char else c
  }

  /** `to_ascii_lowercase`. */
  function Lower(s: string): (r: string)
    ensures |r| == |s| && forall i :: 0 <= i < |s| ==> r[i] == LowerChar(s[i])
  {
    seq(|s|, i requires 0 <= i < |s| => LowerChar(s[i]))
  }

  /** Length in UTF-8 bytes. */
  function ByteLen(s: string): nat {
    if |s| == 0 then 0 else CharBytes(s[0]) + ByteLen(s[1..])
  }

  function CharBytes(c: char): (n: nat)
    ensures 1 <= n <= 4
  {
    var v := c as int;
    if v < 0x80 then 1 else if v < 0x800 then 2 else if v < 0x10000 then 3 else 4
  }

  lemma {:induction false} ByteLenConcat(a: string, b: string)
    ensures ByteLen(a + b) == ByteLen(a) + ByteLen(b)
  {
    if |a| == 0 {
      assert a + b == b;
    } else {
      assert (a + b)[1..] == a[1..] + b;
      ByteLenConcat(a[1..], b);
    }
  }

  lemma {:induction false} ByteLenAtLeast(s: string)
    ensures ByteLen(s) >= |s|
  {
    if |s| > 0 {
      ByteLenAtLeast(s[1..]);
    }
  }

  // ----- Normalisation -----

  /** `normalize_zone` of the forwarding stage: the root is kept as ".". */
  function NormalizeZone(value: string): (r: Option<string>)
    ensures r.Some? ==> Normalised(r.value)
  {
    var trimmed := TrimDots(Trim(value));
    if |trimmed| == 0 then (if Trim(value) == "." then Some(".") else None)
    else Some(Lower(trimmed))
  }

  /** `normalize_name` of the authority: the root is refused. */
  function NormalizeName(value: string): (r: Option<string>)
    ensures r.Some? ==> Normalised(r.value) && r.value != "."
  {
    var trimmed := TrimDots(Trim(value));
    if |trimmed| == 0 then None else Some(Lower(trimmed))
  }

  /** Nonempty, and without a trailing dot unless it is the root. */
  predicate Normalised(z: string) { z == "." || (|z| > 0 && z[|z| - 1] != '.') }

  /** The two normalisers agree on everything but the root, which only forwarding accepts. */
  lemma NormalisersAgree(value: string)
    ensures NormalizeName(value) == (if NormalizeZone(value) == Some(".") then None else NormalizeZone(value))
  {
    var trimmed := TrimDots(Trim(value));
    if |trimmed| > 0 {
      assert Lower(trimmed)[|trimmed| - 1] != '.';
      assert NormalizeName(value).value != ".";
    }
  }

  // ----- What normalisation does, on character codes -----

  /** The same text with every ASCII capital, and nothing else, made small. */
  predicate Folded(s: string, r: string) {
    && |r| == |s|
    && forall i :: 0 <= i < |s| ==>
         var m, n := s[i] as int, r[i] as int;
         n == if 65 <= m <= 90 then m + 32 else m
  }

  lemma LowerFolds(s: string, r: string)
    ensures Folded(s, r) <==> r == Lower(s)
  {
    if Folded(s, r) {
      assert forall i :: 0 <= i < |s| ==> r[i] == Lower(s)[i];
    }
  }

  predicate AllWhitespace(s: string) { forall i :: 0 <= i < |s| ==> IsWhitespace(s[i]) }

  predicate AllDots(s: string) { forall i :: 0 <= i < |s| ==> s[i] == '.' }

  /** The text is blanks, a name that ends in no dot, dots, blanks; and `r` is the name in small letters. */
  ghost predicate NormalAt(s: string, r: string, lo: int, hi: int, end: int) {
    && 0 <= lo < hi <= end <= |s|
    && AllWhitespace(s[..lo]) && !IsWhitespace(s[lo])
    && s[hi - 1] != '.' && AllDots(s[hi..end])
    && !IsWhitespace(s[end - 1]) && AllWhitespace(s[end..])
    && Folded(s[lo..hi], r)
  }

  ghost predicate IsNormalForm(s: string, r: string) {
    exists lo, hi, end :: NormalAt(s, r, lo, hi, end)
  }

  lemma {:induction false} TrimStartIs(s: string, lo: nat)
    requires lo <= |s| && AllWhitespace(s[..lo]) && (lo < |s| ==> !IsWhitespace(s[lo]))
    ensures TrimStart(s) == s[lo..]
    decreases lo
  {
    if lo > 0 {
      assert s[..lo][0] == s[0];
      var t := s[1..];
      var blanks := t[..lo - 1];
      forall i | 0 <= i < |blanks|
        ensures IsWhitespace(blanks[i])
      {
        assert blanks[i] == s[..lo][i + 1];
      }
      TrimStartIs(t, lo - 1);
      assert t[lo - 1..] == s[lo..];
    }
  }

  lemma {:induction false} TrimEndIs(s: string, end: nat)
    requires end <= |s| && AllWhitespace(s[end..]) && (end > 0 ==> !IsWhitespace(s[end - 1]))
    ensures TrimEnd(s) == s[..end]
    decreases |s| - end
  {
    if end < |s| {
      assert s[end..][|s| - 1 - end] == s[|s| - 1];
      var t := s[..|s| - 1];
      assert forall i :: 0 <= i < |t| - end ==> t[end..][i] == s[end..][i];
      TrimEndIs(t, end);
      assert t[..end] == s[..end];
    }
  }

  lemma {:induction false} TrimDotsIs(s: string, hi: nat)
    requires hi <= |s| && AllDots(s[hi..]) && (hi > 0 ==> s[hi - 1] != '.')
    ensures TrimDots(s) == s[..hi]
    decreases |s| - hi
  {
    if hi < |s| {
      assert s[hi..][|s| - 1 - hi] == s[|s| - 1];
      var t := s[..|s| - 1];
      assert forall i :: 0 <= i < |t| - hi ==> t[hi..][i] == s[hi..][i];
      TrimDotsIs(t, hi);
      assert t[..hi] == s[..hi];
    }
  }

  lemma {:induction false} FirstNonBlank(s: string) returns (lo: nat)
    ensures lo <= |s| && AllWhitespace(s[..lo]) && (lo < |s| ==> !IsWhitespace(s[lo]))
  {
    lo := 0;
    if |s| > 0 && IsWhitespace(s[0]) {
      var n := FirstNonBlank(s[1..]);
      lo := n + 1;
      assert forall i :: 1 <= i < lo ==> s[..lo][i] == s[1..][..n][i - 1];
    }
  }

  lemma {:induction false} LastNonBlank(s: string) returns (end: nat)
    ensures end <= |s| && AllWhitespace(s[end..]) && (end > 0 ==> !IsWhitespace(s[end - 1]))
  {
    end := |s|;
    if |s| > 0 && IsWhitespace(s[|s| - 1]) {
      var t := s[..|s| - 1];
      end := LastNonBlank(t);
      assert forall i :: 0 <= i < |t| - end ==> s[end..][i] == t[end..][i];
    }
  }

  lemma {:induction false} LastNonDot(s: string) returns (hi: nat)
    ensures hi <= |s| && AllDots(s[hi..]) && (hi > 0 ==> s[hi - 1] != '.')
  {
    hi := |s|;
    if |s| > 0 && s[|s| - 1] == '.' {
      var t := s[..|s| - 1];
      hi := LastNonDot(t);
      assert forall i :: 0 <= i < |t| - hi ==> s[hi..][i] == t[hi..][i];
    }
  }

  /** What is left between the blanks at either end. */
  lemma Trimmed(s: string) returns (lo: nat, end: nat)
    ensures lo <= end <= |s| && Trim(s) == s[lo..end] && AllWhitespace(s[..lo]) && AllWhitespace(s[end..])
    ensures lo < end ==> !IsWhitespace(s[lo]) && !IsWhitespace(s[end - 1])
  {
    hide TrimStart, TrimEnd, IsWhitespace, AllWhitespace;
    lo := FirstNonBlank(s);
    TrimStartIs(s, lo);
    var t := s[lo..];
    var n := LastNonBlank(t);
    TrimEndIs(t, n);
    end := lo + n;
    assert t[..n] == s[lo..end] && t[n..] == s[end..];
    if n > 0 {
      assert t[n - 1] == s[end - 1];
    }
  }

  lemma NormalFormExists(s: string)
    requires NormalizeName(s).Some?
    ensures IsNormalForm(s, NormalizeName(s).value)
  {
    hide IsWhitespace, Trim, TrimDots, Lower, AllWhitespace, AllDots;
    var lo, end := Trimmed(s);
    var t := s[lo..end];
    var n := LastNonDot(t);
    TrimDotsIs(t, n);
    var hi := lo + n;
    assert t[..n] == s[lo..hi] && t[n..] == s[hi..end];
    LowerFolds(s[lo..hi], Lower(s[lo..hi]));
    if n > 0 {
      assert t[n - 1] == s[hi - 1];
      assert NormalAt(s, Lower(s[lo..hi]), lo, hi, end);
    }
  }

  lemma NormalFormIsUnique(s: string, r: string, lo: int, hi: int, end: int)
    requires NormalAt(s, r, lo, hi, end)
    ensures NormalizeName(s) == Some(r)
  {
    hide IsWhitespace, TrimStart, TrimEnd, TrimDots, Lower, AllWhitespace, AllDots, Folded;
    TrimStartIs(s, lo);
    var t := s[lo..];
    assert t[end - lo..] == s[end..] && t[end - lo - 1] == s[end - 1];
    TrimEndIs(t, end - lo);
    var u := t[..end - lo];
    assert u == s[lo..end] && u[hi - lo..] == s[hi..end] && u[hi - lo - 1] == s[hi - 1];
    TrimDotsIs(u, hi - lo);
    assert u[..hi - lo] == s[lo..hi];
    LowerFolds(s[lo..hi], r);
  }

  /**
   The authority's normaliser strips blanks at both ends and then dots at the end, makes ASCII
   capitals small, keeps every other character, and refuses exactly what leaves nothing.
   */
  lemma NormalizeNameExactly(s: string, r: string)
    ensures NormalizeName(s) == Some(r) <==> IsNormalForm(s, r)
  {
    hide NormalizeName, NormalAt;
    if NormalizeName(s) == Some(r) {
      NormalFormExists(s);
    }
    if IsNormalForm(s, r) {
      var lo, hi, end :| NormalAt(s, r, lo, hi, end);
      NormalFormIsUnique(s, r, lo, hi, end);
    }
  }

  /** So does the forwarding stage's, which also accepts a lone dot between blanks. */
  lemma NormalizeZoneExactly(s: string, r: string)
    ensures NormalizeZone(s) == Some(r) <==> IsNormalForm(s, r) || (r == "." && IsLoneDot(s))
  {
    NormalizeNameExactly(s, r);
    NormalisersAgree(s);
    LoneDot(s);
    NormalFormIsNoDot(s, r);
    hide NormalizeName, NormalizeZone, IsNormalForm, IsLoneDot;
  }

  ghost predicate IsLoneDot(s: string) {
    exists i :: 0 <= i < |s| && s[i] == '.' && AllWhitespace(s[..i]) && AllWhitespace(s[i + 1..])
  }

  lemma LoneDot(s: string)
    ensures NormalizeZone(s) == Some(".") <==> IsLoneDot(s)
  {
    TrimDotsIs(".", 0);
    LowerNeverMakesDot(TrimDots(Trim(s)));
    LoneDotTrims(s);
    hide Trim, TrimDots, Lower, IsLoneDot;
  }

  lemma LoneDotTrims(s: string)
    ensures Trim(s) == "." <==> IsLoneDot(s)
  {
    hide TrimStart, TrimEnd, AllWhitespace, IsWhitespace;
    if Trim(s) == "." {
      var lo, end := Trimmed(s);
      assert s[lo] == s[lo..end][0] == '.' && end == lo + 1;
    }
    if IsLoneDot(s) {
      var i :| 0 <= i < |s| && s[i] == '.' && AllWhitespace(s[..i]) && AllWhitespace(s[i + 1..]);
      DotIsNoBlank();
      TrimStartIs(s, i);
      var t := s[i..];
      assert t[1..] == s[i + 1..] && t[..1] == ".";
      TrimEndIs(t, 1);
    }
  }

  lemma DotIsNoBlank()
    ensures !IsWhitespace('.')
  {
  }

  lemma LowerNeverMakesDot(s: string)
    ensures |s| > 0 && s[|s| - 1] != '.' ==> Lower(s) != "."
  {
  }

  lemma NormalFormIsNoDot(s: string, r: string)
    ensures IsNormalForm(s, r) ==> r != "."
  {
    if IsNormalForm(s, r) {
      var lo, hi, end :| NormalAt(s, r, lo, hi, end);
      assert s[lo..hi][hi - lo - 1] == s[hi - 1];
    }
  }

  // ----- Letter case does not matter -----

  predicate SameLetter(a: char, b: char) {
    var m, n := a as int, b as int;
    m == n || (65 <= m <= 90 && n == m + 32) || (65 <= n <= 90 && m == n + 32)
  }

  /** The strings agree position by position up to ASCII letter case. */
  predicate SameSpelling(s: string, t: string) {
    |s| == |t| && forall i :: 0 <= i < |s| ==> SameLetter(s[i], t[i])
  }

  lemma {:induction false} TrimStartSpelling(s: string, t: string)
    requires SameSpelling(s, t)
    ensures SameSpelling(TrimStart(s), TrimStart(t))
  {
    if |s| > 0 && IsWhitespace(s[0]) {
      TrimStartSpelling(s[1..], t[1..]);
    }
  }

  lemma {:induction false} TrimEndSpelling(s: string, t: string)
    requires SameSpelling(s, t)
    ensures SameSpelling(TrimEnd(s), TrimEnd(t))
  {
    if |s| > 0 && IsWhitespace(s[|s| - 1]) {
      TrimEndSpelling(s[..|s| - 1], t[..|t| - 1]);
    }
  }

  lemma {:induction false} TrimDotsSpelling(s: string, t: string)
    requires SameSpelling(s, t)
    ensures SameSpelling(TrimDots(s), TrimDots(t))
  {
    if |s| > 0 && s[|s| - 1] == '.' {
      TrimDotsSpelling(s[..|s| - 1], t[..|t| - 1]);
    }
  }

  /** However its letters are cased, a name normalises the same. */
  lemma SpellingDoesNotMatter(s: string, t: string)
    requires SameSpelling(s, t)
    ensures NormalizeName(s) == NormalizeName(t) && NormalizeZone(s) == NormalizeZone(t)
  {
    hide TrimStart, TrimEnd, TrimDots, Lower, SameSpelling;
    TrimStartSpelling(s, t);
    TrimEndSpelling(TrimStart(s), TrimStart(t));
    TrimDotsSpelling(Trim(s), Trim(t));
    SameWhenLower(TrimDots(Trim(s)), TrimDots(Trim(t)));
    SameDot(Trim(s), Trim(t));
  }

  lemma SameWhenLower(s: string, t: string)
    requires SameSpelling(s, t)
    ensures |s| == |t| && Lower(s) == Lower(t)
  {
    forall i | 0 <= i < |s|
      ensures Lower(s)[i] == Lower(t)[i]
    {
      assert SameLetter(s[i], t[i]);
    }
  }

  lemma SameDot(s: string, t: string)
    requires SameSpelling(s, t)
    ensures s == "." <==> t == "."
  {
    if |s| == 1 {
      assert SameLetter(s[0], t[0]);
      assert s == [s[0]] && t == [t[0]];
    }
  }

  /** `len` of a string: the octets of its UTF-8 encoding. */
  lemma {:induction false} ByteLenIsUtf8(s: string)
    ensures ByteLen(s) == |Utf8.EncodeAll(Codes(s))|
  {
    if |s| > 0 {
      ByteLenIsUtf8(s[1..]);
      assert Codes(s)[1..] == Codes(s[1..]);
    }
  }

  function Codes(s: string): seq<Utf8.Scalar> { seq(|s|, i requires 0 <= i < |s| => s[i] as int) }

  // ----- The suffix tests -----

  predicate EndsWith(s: string, t: string) { |t| <= |s| && s[|s| - |t|..] == t }

  /** Equal, or a suffix preceded by a dot: the test of the authority. */
  predicate SuffixMatch(domain: string, zone: string) {
    domain == zone ||
    (EndsWith(domain, zone) && |domain| > |zone| && domain[|domain| - |zone| - 1] == '.')
  }

  /** The test of the forwarding stage: the root zone matches everything. */
  predicate DomainMatchesZone(domain: string, zone: string) {
    zone == "." || SuffixMatch(domain, zone)
  }

  // ----- Labels -----

  /** The labels between the dots of a name. */
  function Labels(s: string): (ls: seq<string>)
    ensures |ls| > 0
  {
    Split('.', s)
  }

  function Join(ls: seq<string>): string
    requires |ls| > 0
  {
    if |ls| == 1 then ls[0] else ls[0] + ("." + Join(ls[1..]))
  }

  predicate LabelSuffix(zone: seq<string>, domain: seq<string>) {
    |zone| <= |domain| && domain[|domain| - |zone|..] == zone
  }

  lemma JoinPrepend(c: char, ls: seq<string>)
    requires |ls| > 0
    ensures Join(Prepend(c, ls)) == [c] + Join(ls)
  {
    var ls' := Prepend(c, ls);
    assert |ls'| == |ls| && ls'[0] == [c] + ls[0] && ls'[1..] == ls[1..];
    JoinFirst(ls);
    JoinFirst(ls');
    hide Join, Prepend;
    if |ls| > 1 {
      Reassociate([c], ls[0], "." + Join(ls[1..]));
    }
  }

  lemma JoinFirst(ls: seq<string>)
    requires |ls| > 0
    ensures Join(ls) == if |ls| == 1 then ls[0] else ls[0] + ("." + Join(ls[1..]))
  {
  }

  lemma Reassociate(a: string, b: string, c: string)
    ensures (a + b) + c == a + (b + c)
  {
  }

  lemma {:induction false} JoinLabels(s: string)
    ensures Join(Labels(s)) == s
  {
    if |s| > 0 {
      JoinLabels(s[1..]);
      var rest := Labels(s[1..]);
      if s[0] == '.' {
        assert ([""] + rest)[1..] == rest;
        assert "" + ("." + s[1..]) == s;
      } else {
        JoinPrepend(s[0], rest);
        assert [s[0]] + s[1..] == s;
      }
    }
  }

  lemma PrependConcat(c: char, a: seq<string>, b: seq<string>)
    requires |a| > 0
    ensures Prepend(c, a + b) == Prepend(c, a) + b
  {
  }

  lemma {:induction false} LabelsConcat(p: string, z: string)
    ensures Labels(p + ("." + z)) == Labels(p) + Labels(z)
  {
    hide Labels, Prepend;
    if |p| == 0 {
      LabelsAfterDot(z);
      assert p + ("." + z) == "." + z && p == "";
    } else {
      var s := p + ("." + z);
      var p' := p[1..];
      var s' := p' + ("." + z);
      LabelsConcat(p', z);
      assert s == [p[0]] + s' && p == [p[0]] + p';
      LabelsCons(p[0], s');
      LabelsCons(p[0], p');
      if p[0] == '.' {
        assert [""] + (Labels(p') + Labels(z)) == ([""] + Labels(p')) + Labels(z);
      } else {
        PrependConcat(p[0], Labels(p'), Labels(z));
      }
    }
  }

  lemma LabelsAfterDot(z: string)
    ensures Labels("." + z) == Labels("") + Labels(z)
  {
    LabelsCons('.', z);
  }

  lemma LabelsCons(c: char, s: string)
    ensures Labels([c] + s) == if c == '.' then [""] + Labels(s) else Prepend(c, Labels(s))
  {
    assert ([c] + s)[1..] == s;
  }

  lemma {:induction false} JoinConcat(a: seq<string>, b: seq<string>)
    requires |a| > 0 && |b| > 0
    ensures Join(a + b) == Join(a) + ("." + Join(b))
  {
    assert (a + b)[1..] == a[1..] + b;
    if |a| == 1 {
      assert a[1..] + b == b;
    } else {
      JoinConcat(a[1..], b);
      var x, y := "." + Join(a[1..]), "." + Join(b);
      assert "." + (Join(a[1..]) + y) == x + y;
      assert a[0] + (x + y) == (a[0] + x) + y;
    }
  }

  /** For every pair of strings, the suffix test is the label-suffix relation. */
  lemma SuffixMatchIsLabelSuffix(domain: string, zone: string)
    ensures SuffixMatch(domain, zone) <==> LabelSuffix(Labels(zone), Labels(domain))
  {
    hide Labels, Join;
    var ld, lz := Labels(domain), Labels(zone);
    if SuffixMatch(domain, zone) && domain != zone {
      var p := domain[..|domain| - |zone| - 1];
      assert domain == p + ("." + zone);
      LabelsConcat(p, zone);
      assert ld[|Labels(p)|..] == lz;
    }
    if LabelSuffix(lz, ld) {
      JoinLabels(domain);
      JoinLabels(zone);
      var a := ld[..|ld| - |lz|];
      assert ld == a + lz;
      if |a| == 0 {
        assert ld == lz;
      } else {
        JoinConcat(a, lz);
        assert domain == Join(a) + ("." + zone);
      }
    }
  }

  // ----- Matching zones are nested -----

  /** Two matching non-root zones: the shorter one contains the longer one. */
  lemma MatchesAreNested(domain: string, z: string, w: string)
    requires SuffixMatch(domain, z) && SuffixMatch(domain, w) && |w| <= |z|
    ensures SuffixMatch(z, w)
  {
    assert z == domain[|domain| - |z|..] && w == domain[|domain| - |w|..];
    assert z[|z| - |w|..] == w;
    if |w| < |z| {
      assert z[|z| - |w| - 1] == domain[|domain| - |w| - 1] == '.';
    }
  }

  /** Among suffixes of one string, byte length and character count order alike. */
  lemma SuffixByteLen(domain: string, z: string, w: string)
    requires EndsWith(domain, z) && EndsWith(domain, w)
    ensures |w| <= |z| <==> ByteLen(w) <= ByteLen(z)
  {
    if |w| <= |z| {
      SuffixShorter(domain, z, w);
    } else {
      SuffixShorter(domain, w, z);
    }
  }

  lemma SuffixShorter(domain: string, z: string, w: string)
    requires EndsWith(domain, z) && EndsWith(domain, w) && |w| <= |z|
    ensures ByteLen(z) >= ByteLen(w) + (|z| - |w|)
  {
    var front := z[..|z| - |w|];
    assert z == domain[|domain| - |z|..] && w == domain[|domain| - |w|..];
    assert z == front + w;
    ByteLenConcat(front, w);
    ByteLenAtLeast(front);
  }
}
