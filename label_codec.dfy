/**
 * The label codec of the plug-in: the table of status indicators, the
 * whitespace handling of JavaScript strings, and `cleanPageName`, which
 * strips one leading indicator from a page name with a regular expression
 * and trims the rest.
 *
 * JavaScript strings are sequences of UTF-16 code units, and the regular
 * expression carries no `u` flag, so every character test below looks at
 * one code unit. An emoji outside the Basic Multilingual Plane is two code
 * units (a high and a low surrogate).
 */
module LabelCodec {
  import opened Wrappers

  /** One UTF-16 code unit. */
  type CodeUnit = c: int | 0 <= c < 0x1_0000

  /** A JavaScript string, as the code units it is made of. */
  type Text = seq<CodeUnit>

  const SPACE: CodeUnit := 0x20
  /** `•` U+2022 BULLET */
  const BULLET: CodeUnit := 0x2022
  /** `↪` U+21AA RIGHTWARDS ARROW WITH HOOK */
  const HOOK_ARROW: CodeUnit := 0x21AA

  /**
   * The ECMAScript WhiteSpace and LineTerminator code points: the set that
   * both the regular-expression escape `\s` and `String.prototype.trim` use.
   */
  predicate IsWhiteSpace(c: CodeUnit) {
    || c == 0x09 || c == 0x0A || c == 0x0B || c == 0x0C || c == 0x0D
    || c == 0x20 || c == 0xA0 || c == 0x1680
    || (0x2000 <= c <= 0x200A)
    || c == 0x2028 || c == 0x2029 || c == 0x202F || c == 0x205F
    || c == 0x3000 || c == 0xFEFF
  }

  ghost predicate AllWhiteSpace(w: Text) {
    forall k :: 0 <= k < |w| ==> IsWhiteSpace(w[k])
  }

  /** Neither the first nor the last code unit of `t` is whitespace. */
  ghost predicate NoEdgeWhiteSpace(t: Text) {
    t == [] || (!IsWhiteSpace(t[0]) && !IsWhiteSpace(t[|t| - 1]))
  }

  /** `n` spaces. */
  function Spaces(n: nat): (r: Text)
    ensures |r| == n
    ensures forall k :: 0 <= k < n ==> r[k] == SPACE
  {
    if n == 0 then [] else Spaces(n - 1) + [SPACE]
  }

  // ---------------------------------------------------------------------------
  // Whitespace scanning and trim
  // ---------------------------------------------------------------------------

  /** The first index at or after `i` that does not hold whitespace (`|s|` if none). */
  function SkipFrom(s: Text, i: nat): (j: nat)
    requires i <= |s|
    ensures i <= j <= |s|
    ensures forall k :: i <= k < j ==> IsWhiteSpace(s[k])
    ensures j == |s| || !IsWhiteSpace(s[j])
    decreases |s| - i
  {
    if i < |s| && IsWhiteSpace(s[i]) then SkipFrom(s, i + 1) else i
  }

  /** The index just after the last non-whitespace code unit before `j` (0 if none). */
  function SkipBackFrom(s: Text, j: nat): (i: nat)
    requires j <= |s|
    ensures i <= j
    ensures forall k :: i <= k < j ==> IsWhiteSpace(s[k])
    ensures i == 0 || !IsWhiteSpace(s[i - 1])
  {
    if 0 < j && IsWhiteSpace(s[j - 1]) then SkipBackFrom(s, j - 1) else j
  }

  /** Any index that ends a whitespace run started at `i` is the one `SkipFrom` finds. */
  lemma SkipFromUnique(s: Text, i: nat, j: nat)
    requires i <= j <= |s|
    requires forall k :: i <= k < j ==> IsWhiteSpace(s[k])
    requires j == |s| || !IsWhiteSpace(s[j])
    ensures SkipFrom(s, i) == j
  {
  }

  /** Skipping whitespace from any point inside a whitespace run ends where the run ends. */
  lemma SkipFromInsideRun(s: Text, i: nat, m: nat)
    requires i <= m <= |s|
    requires forall k :: i <= k < m ==> IsWhiteSpace(s[k])
    ensures SkipFrom(s, i) == SkipFrom(s, m)
  {
    SkipFromUnique(s, i, SkipFrom(s, m));
  }

  /** Scanning `p + t` from inside `t` is scanning `t`, shifted by `|p|`. */
  lemma SkipFromShift(p: Text, t: Text, i: nat)
    requires i <= |t|
    ensures SkipFrom(p + t, |p| + i) == |p| + SkipFrom(t, i)
  {
    var s := p + t;
    var j := SkipFrom(t, i);
    assert forall k :: |p| + i <= k < |p| + j ==> s[k] == t[k - |p|];
    SkipFromUnique(s, |p| + i, |p| + j);
  }

  /** The leading-whitespace half of `trim`. */
  function TrimStart(s: Text): (r: Text)
    ensures r == [] || !IsWhiteSpace(r[0])
  {
    s[SkipFrom(s, 0)..]
  }

  /** The trailing-whitespace half of `trim`. */
  function TrimEnd(s: Text): (r: Text)
    ensures r == [] || !IsWhiteSpace(r[|r| - 1])
  {
    s[..SkipBackFrom(s, |s|)]
  }

  /** `String.prototype.trim`. */
  function Trim(s: Text): (r: Text)
    ensures NoEdgeWhiteSpace(r)
  {
    TrimEnd(TrimStart(s))
  }

  /** Removing leading whitespace from a text that has none changes nothing. */
  lemma TrimStartNoLeading(t: Text)
    requires t == [] || !IsWhiteSpace(t[0])
    ensures TrimStart(t) == t
  {
    SkipFromUnique(t, 0, 0);
  }

  /** Removing trailing whitespace from a text that has none changes nothing. */
  lemma TrimEndNoTrailing(t: Text)
    requires t == [] || !IsWhiteSpace(t[|t| - 1])
    ensures TrimEnd(t) == t
  {
  }

  /** Whitespace after the last non-whitespace code unit is exactly what `TrimEnd` removes. */
  lemma TrimEndDropsWhiteSpaceTail(m: Text, w: Text)
    requires AllWhiteSpace(w)
    requires m == [] || !IsWhiteSpace(m[|m| - 1])
    ensures TrimEnd(m + w) == m
  {
    var s := m + w;
    assert |m| > 0 ==> s[|m| - 1] == m[|m| - 1];
    assert forall k :: |m| <= k < |s| ==> s[k] == w[k - |m|];
    assert s[..|m|] == m;
  }

  /**
   * `Trim` is characterised by its result: whenever `s` splits into a
   * whitespace prefix, a middle with no whitespace at either edge and a
   * whitespace suffix, the middle is what `Trim` returns.
   */
  lemma TrimCharacterised(w1: Text, m: Text, w2: Text)
    requires AllWhiteSpace(w1) && AllWhiteSpace(w2) && NoEdgeWhiteSpace(m)
    ensures Trim(w1 + m + w2) == m
  {
    var s := w1 + m + w2;
    assert s == w1 + (m + w2);
    var j := if m == [] then |s| else |w1|;
    assert forall k :: 0 <= k < j ==> IsWhiteSpace(s[k]) by {
      forall k | 0 <= k < j ensures IsWhiteSpace(s[k]) {
        if k < |w1| { assert s[k] == w1[k]; } else { assert s[k] == w2[k - |w1|]; }
      }
    }
    if m != [] { assert s[|w1|] == m[0]; }
    SkipFromUnique(s, 0, j);
    if m == [] {
      assert TrimStart(s) == [];
    } else {
      assert TrimStart(s) == m + w2;
      TrimEndDropsWhiteSpaceTail(m, w2);
    }
  }

  /** `Trim` of an already trimmed text changes nothing. */
  lemma TrimIdempotent(s: Text)
    ensures Trim(Trim(s)) == Trim(s)
  {
    var t := Trim(s);
    TrimCharacterised([], t, []);
    assert [] + t + [] == t;
  }

  /** `Trim` ignores leading whitespace that was already removed. */
  lemma TrimAfterTrimStart(s: Text)
    ensures Trim(TrimStart(s)) == Trim(s)
  {
    TrimStartNoLeading(TrimStart(s));
  }

  // ---------------------------------------------------------------------------
  // The indicator table (STATUS_INDICATORS)
  // ---------------------------------------------------------------------------

  /** The seven keys of the indicator table. */
  datatype Status = Complete | InProgress | Draft | UnderReview | Approved | SectionTitle | SubCategory {
    /** The key as the table spells it. */
    function Key(): string {
      match this
      case Complete => "Complete"
      case InProgress => "In Progress"
      case Draft => "Draft"
      case UnderReview => "Under Review"
      case Approved => "Approved"
      case SectionTitle => "Section Title"
      case SubCategory => "Sub Category"
    }

    /** A status whose emoji lies outside the Basic Multilingual Plane (two code units). */
    predicate IsAstral() {
      Complete? || InProgress? || Draft? || UnderReview?
    }

    /** The emoji of a bullet indicator, as code units. */
    function Emoji(): Text {
      match this
      case Complete => [0xD83D, 0xDFE2]     // 🟢 U+1F7E2
      case InProgress => [0xD83D, 0xDFE1]   // 🟡 U+1F7E1
      case Draft => [0xD83D, 0xDED1]        // 🛑 U+1F6D1
      case UnderReview => [0xD83D, 0xDC40]  // 👀 U+1F440
      case _ => [0x2705]                    // ✅ U+2705
    }

    /** The indicator string that prefixes a page name carrying this status. */
    function Indicator(): Text {
      match this
      case SectionTitle => Spaces(1) + [HOOK_ARROW] + Spaces(3)
      case SubCategory => Spaces(10) + [HOOK_ARROW] + Spaces(1)
      case _ => Spaces(8) + [BULLET] + Spaces(4) + Emoji() + Spaces(4)
    }
  }

  /** Looks a status string up among the table's keys. */
  function ParseStatus(key: string): (r: Option<Status>)
    ensures r.Some? ==> r.value.Key() == key
    ensures r.None? ==> forall st: Status :: st.Key() != key
  {
    if key == "Complete" then Some(Complete)
    else if key == "In Progress" then Some(InProgress)
    else if key == "Draft" then Some(Draft)
    else if key == "Under Review" then Some(UnderReview)
    else if key == "Approved" then Some(Approved)
    else if key == "Section Title" then Some(SectionTitle)
    else if key == "Sub Category" then Some(SubCategory)
    else None
  }

  /** `STATUS_INDICATORS[status] || ''`: the indicator of a known key, the empty string otherwise. */
  function IndicatorFor(status: string): (r: Text)
    ensures forall st: Status :: st.Key() == status ==> r == st.Indicator()
    ensures (forall st: Status :: st.Key() != status) ==> r == []
  {
    match ParseStatus(status)
    case Some(st) => st.Indicator()
    case None => []
  }

  /** Every key is found again by the lookup, and every indicator is non-empty (truthy). */
  lemma KeysRoundTrip(st: Status)
    ensures ParseStatus(st.Key()) == Some(st)
    ensures |st.Indicator()| > 0
  {
  }

  // ---------------------------------------------------------------------------
  // The regular expression of cleanPageName, and cleanPageName itself
  // ---------------------------------------------------------------------------

  /** The text between the brackets of the class `[🟢🟡🛑👀✅]`, code unit by code unit. */
  const EMOJI_CLASS: Text := [0xD83D, 0xDFE2, 0xD83D, 0xDFE1, 0xD83D, 0xDED1, 0xD83D, 0xDC40, 0x2705]

  /** The distinct code units of `EMOJI_CLASS`: one shared high surrogate, four low surrogates and ✅. */
  predicate InEmojiClass(c: CodeUnit) {
    || c == 0xD83D
    || c == 0xDFE2 || c == 0xDFE1 || c == 0xDED1 || c == 0xDC40
    || c == 0x2705
  }

  /** Without the `u` flag, the class matches exactly the single code units written between its brackets. */
  lemma EmojiClassIsItsCodeUnits(c: CodeUnit)
    ensures InEmojiClass(c) <==> c in EMOJI_CLASS
  {
    if InEmojiClass(c) {
      assert EMOJI_CLASS[0] == 0xD83D && EMOJI_CLASS[1] == 0xDFE2 && EMOJI_CLASS[3] == 0xDFE1;
      assert EMOJI_CLASS[5] == 0xDED1 && EMOJI_CLASS[7] == 0xDC40 && EMOJI_CLASS[8] == 0x2705;
    }
  }

  /** A whole text is one match of the alternation `•\s*[🟢🟡🛑👀✅]|↪`. */
  ghost predicate IsAlternative(q: Text) {
    || q == [HOOK_ARROW]
    || (2 <= |q| && q[0] == BULLET && AllWhiteSpace(q[1..|q| - 1]) && InEmojiClass(q[|q| - 1]))
  }

  /** A whole text is one match of `\s*(?:•\s*[🟢🟡🛑👀✅]|↪)\s*`. */
  ghost predicate MatchesPattern(p: Text) {
    exists a: nat, b: nat {:trigger IsAlternative(p[a..b])} ::
      a < b <= |p| && AllWhiteSpace(p[..a]) && IsAlternative(p[a..b]) && AllWhiteSpace(p[b..])
  }

  /**
   * The length of the match of the anchored pattern at the start of `s`, or
   * None. Every step is forced (no member of the class and neither glyph is
   * whitespace), so the regular expression needs no backtracking.
   */
  function MatchEnd(s: Text): (r: Option<nat>)
    ensures r.Some? ==> r.value <= |s|
  {
    var a := SkipFrom(s, 0);
    if a < |s| && s[a] == HOOK_ARROW then Some(SkipFrom(s, a + 1))
    else if a < |s| && s[a] == BULLET then
      var b := SkipFrom(s, a + 1);
      if b < |s| && InEmojiClass(s[b]) then Some(SkipFrom(s, b + 1)) else None
    else None
  }

  /**
   * The replace of `cleanPageName`: drop the match of the anchored pattern,
   * if there is one.
   */
  function StripIndicator(s: Text): (r: Text)
    ensures |r| <= |s|
  {
    match MatchEnd(s)
    case Some(n) => s[n..]
    case None => s
  }

  /**
   * What the replace leaves is a suffix of the name; it is the whole name
   * exactly when nothing matched, and after a match it does not start with
   * whitespace, because the trailing whitespace run is taken greedily.
   */
  lemma StripIndicatorShape(s: Text)
    ensures var r := StripIndicator(s);
      && r == s[|s| - |r|..]
      && (r == s <==> MatchEnd(s).None?)
      && (MatchEnd(s).Some? ==> r == [] || !IsWhiteSpace(r[0]))
  {
    var a := SkipFrom(s, 0);
    match MatchEnd(s)
    case None =>
    case Some(n) =>
      if s[a] == HOOK_ARROW {
        assert n == SkipFrom(s, a + 1);
      } else {
        assert n == SkipFrom(s, SkipFrom(s, a + 1) + 1);
      }
      assert |StripIndicator(s)| < |s|;
  }

  /** `cleanPageName`: strip one leading indicator, then trim. */
  function CleanPageName(name: Text): (r: Text)
    ensures NoEdgeWhiteSpace(r)
  {
    Trim(StripIndicator(name))
  }

  /** Scanning `SkipBackFrom` from the end stops at the only place a trailing whitespace run can start. */
  lemma SkipBackFromUnique(s: Text, i: nat)
    requires i <= |s|
    requires forall k :: i <= k < |s| ==> IsWhiteSpace(s[k])
    requires i == 0 || !IsWhiteSpace(s[i - 1])
    ensures SkipBackFrom(s, |s|) == i
  {
  }

  /** Leading whitespace in front of `t` makes no difference to `TrimStart`. */
  lemma TrimStartWhiteSpacePrefix(w: Text, t: Text)
    requires AllWhiteSpace(w)
    ensures TrimStart(w + t) == TrimStart(t)
  {
    var s := w + t;
    assert forall k :: 0 <= k < |w| ==> s[k] == w[k];
    SkipFromInsideRun(s, 0, |w|);
    SkipFromShift(w, t, 0);
    assert s[|w| + SkipFrom(t, 0)..] == t[SkipFrom(t, 0)..];
  }

  /** Trimming never yields more than trimming the end alone. */
  lemma TrimNoLongerThanTrimEnd(s: Text)
    ensures |Trim(s)| <= |TrimEnd(s)|
  {
    var i := SkipFrom(s, 0);
    var t := s[i..];
    var x := SkipBackFrom(t, |t|);
    assert |Trim(s)| == x;
    if 0 < x {
      SkipBackFromSuffix(s, i);
    }
  }

  /** Where the trailing whitespace of a suffix with some non-whitespace starts, shifted back into the whole text. */
  lemma SkipBackFromSuffix(s: Text, i: nat)
    requires i <= |s| && 0 < SkipBackFrom(s[i..], |s| - i)
    ensures SkipBackFrom(s, |s|) == i + SkipBackFrom(s[i..], |s| - i)
  {
    var t := s[i..];
    var x := SkipBackFrom(t, |t|);
    assert t[x - 1] == s[i + x - 1];
    assert forall k :: i + x <= k < |s| ==> s[k] == t[k - i];
    SkipBackFromUnique(s, i + x);
  }


  /**
   * `TrimEnd` of a text behind a prefix that starts with a non-whitespace
   * code unit and is otherwise whitespace: the prefix's head survives, and
   * the rest of the prefix survives exactly when `t` has something left.
   */
  lemma TrimEndBehindHead(h: CodeUnit, w: Text, t: Text)
    requires !IsWhiteSpace(h) && AllWhiteSpace(w)
    ensures TrimEnd([h] + w + t) == if TrimEnd(t) == [] then [h] else [h] + w + TrimEnd(t)
  {
    var m := TrimEnd(t);
    var j := SkipBackFrom(t, |t|);
    var tail := t[j..];
    assert t == m + tail;
    if m == [] {
      assert [h] + w + t == [h] + (w + tail);
      assert AllWhiteSpace(w + tail) by {
        forall k | 0 <= k < |w + tail| ensures IsWhiteSpace((w + tail)[k]) {
          if k < |w| { assert (w + tail)[k] == w[k]; } else { assert (w + tail)[k] == tail[k - |w|]; }
        }
      }
      TrimEndDropsWhiteSpaceTail([h], w + tail);
    } else {
      assert [h] + w + t == ([h] + w + m) + tail;
      TrimEndDropsWhiteSpaceTail([h] + w + m, tail);
    }
  }

  /** Neither glyph of the pattern nor any member of the class is whitespace. */
  lemma PatternGlyphsAreNotWhiteSpace(c: CodeUnit)
    requires c == BULLET || c == HOOK_ARROW || InEmojiClass(c)
    ensures !IsWhiteSpace(c)
  {
  }

  /** Whitespace in front of `t` is skipped whole. */
  lemma SkipPastWhiteSpace(w: Text, t: Text)
    requires AllWhiteSpace(w)
    ensures SkipFrom(w + t, 0) == |w| + SkipFrom(t, 0)
  {
    var s := w + t;
    assert forall k :: 0 <= k < |w| ==> s[k] == w[k];
    SkipFromInsideRun(s, 0, |w|);
    SkipFromShift(w, t, 0);
  }

  /** A match laid out in `s` at `[0, n)` with the alternation at `[a, b)` is a match of the pattern. */
  lemma MatchesPatternAt(s: Text, a: nat, b: nat, n: nat)
    requires a < b <= n <= |s|
    requires forall k :: 0 <= k < a ==> IsWhiteSpace(s[k])
    requires IsAlternative(s[a..b])
    requires forall k :: b <= k < n ==> IsWhiteSpace(s[k])
    ensures MatchesPattern(s[..n])
  {
    var p := s[..n];
    assert p[a..b] == s[a..b];
    assert forall k :: 0 <= k < a ==> p[..a][k] == s[k];
    assert forall k :: 0 <= k < n - b ==> p[b..][k] == s[b + k];
  }

  /** `•` at `a`, whitespace, and a class member at `c` form the first alternative. */
  lemma BulletAlternative(s: Text, a: nat, c: nat)
    requires a < c < |s|
    requires s[a] == BULLET && InEmojiClass(s[c])
    requires forall k :: a < k < c ==> IsWhiteSpace(s[k])
    ensures IsAlternative(s[a..c + 1])
  {
    var q := s[a..c + 1];
    assert |q| == c + 1 - a && q[0] == BULLET && q[|q| - 1] == s[c];
    var inner := q[1..|q| - 1];
    forall k | 0 <= k < |inner| ensures IsWhiteSpace(inner[k]) {
      assert inner[k] == q[k + 1] == s[a + 1 + k];
    }
  }

  /** What `MatchEnd` finds is a match of the pattern. */
  lemma MatchEndSound(s: Text)
    requires MatchEnd(s).Some?
    ensures MatchesPattern(s[..MatchEnd(s).value])
  {
    var n := MatchEnd(s).value;
    var a := SkipFrom(s, 0);
    if s[a] == HOOK_ARROW {
      assert s[a..a + 1] == [HOOK_ARROW];
      MatchesPatternAt(s, a, a + 1, n);
    } else {
      var c := SkipFrom(s, a + 1);
      BulletAlternative(s, a, c);
      MatchesPatternAt(s, a, c + 1, n);
    }
  }

  /** A match laid out in `s` at `[0, m)` with the alternation at `[a, b)` ends no later than `MatchEnd`. */
  lemma MatchEndCovers(s: Text, a: nat, b: nat, m: nat)
    requires a < b <= m <= |s|
    requires forall k :: 0 <= k < a ==> IsWhiteSpace(s[k])
    requires IsAlternative(s[a..b])
    requires forall k :: b <= k < m ==> IsWhiteSpace(s[k])
    ensures MatchEnd(s).Some? && m <= MatchEnd(s).value
  {
    var q := s[a..b];
    assert s[a] == q[0];
    PatternGlyphsAreNotWhiteSpace(s[a]);
    SkipFromUnique(s, 0, a);
    if q != [HOOK_ARROW] {
      var inner := q[1..|q| - 1];
      assert forall k :: a + 1 <= k < b - 1 ==> s[k] == inner[k - a - 1];
      assert s[b - 1] == q[|q| - 1];
      PatternGlyphsAreNotWhiteSpace(s[b - 1]);
      SkipFromUnique(s, a + 1, b - 1);
    }
  }

  /**
   * Every prefix of `s` that the pattern matches as a whole ends no later
   * than what `MatchEnd` finds; in particular, when `MatchEnd` finds
   * nothing, no prefix matches, and the replace leaves the name alone.
   */
  lemma MatchEndLongest(s: Text, m: nat)
    requires m <= |s| && MatchesPattern(s[..m])
    ensures MatchEnd(s).Some? && m <= MatchEnd(s).value
  {
    var p := s[..m];
    var a: nat, b: nat :| a < b <= |p| && AllWhiteSpace(p[..a]) && IsAlternative(p[a..b]) && AllWhiteSpace(p[b..]);
    assert p[a..b] == s[a..b];
    assert forall k :: 0 <= k < a ==> s[k] == p[..a][k];
    assert forall k :: b <= k < m ==> s[k] == p[b..][k - b];
    MatchEndCovers(s, a, b, m);
  }

  /** Skipping from the end of `p` over the whitespace `w` lands where scanning `t` lands. */
  lemma SkipAt(p: Text, w: Text, t: Text)
    requires AllWhiteSpace(w)
    ensures SkipFrom(p + w + t, |p|) == |p| + |w| + SkipFrom(t, 0)
  {
    assert p + w + t == p + (w + t);
    SkipFromShift(p, w + t, 0);
    SkipPastWhiteSpace(w, t);
  }

  /** Scanning from `i` is scanning the suffix from `i`: what is left is that suffix's `TrimStart`. */
  lemma SkipFromSuffix(s: Text, i: nat)
    requires i <= |s|
    ensures s[SkipFrom(s, i)..] == TrimStart(s[i..])
  {
    assert s == s[..i] + s[i..];
    SkipFromShift(s[..i], s[i..], 0);
  }

  /** When the match ends with the whitespace run from `i`, the replace leaves the suffix from `i`, trimmed at the start. */
  lemma StripAfterMatch(s: Text, i: nat)
    requires i <= |s| && MatchEnd(s) == Some(SkipFrom(s, i))
    ensures StripIndicator(s) == TrimStart(s[i..])
  {
    SkipFromSuffix(s, i);
  }

  /** The parse meets only whitespace up to `•` at `a`, and only whitespace from there up to a class member at `b`. */
  ghost predicate BulletAt(s: Text, a: nat, b: nat) {
    && a < b < |s|
    && SkipFrom(s, 0) == a && s[a] == BULLET
    && SkipFrom(s, a + 1) == b && InEmojiClass(s[b])
  }

  /** The bullet branch of the replace: whitespace up to `•` at `a`, whitespace up to a class member at `b`. */
  lemma StripBulletAt(s: Text, a: nat, b: nat)
    requires BulletAt(s, a, b)
    ensures StripIndicator(s) == TrimStart(s[b + 1..])
  {
    MatchBullet(s, a, b);
    StripAfterMatch(s, b + 1);
  }

  /** The parse of the bullet branch, once both whitespace runs are known. */
  lemma MatchBullet(s: Text, a: nat, b: nat)
    requires BulletAt(s, a, b)
    ensures MatchEnd(s) == Some(SkipFrom(s, b + 1))
  {
  }

  /** The hook branch of the replace: whitespace, then `↪` at `a`. */
  lemma StripHookAt(s: Text, a: nat)
    requires a < |s|
    requires forall k :: 0 <= k < a ==> IsWhiteSpace(s[k])
    requires s[a] == HOOK_ARROW
    ensures StripIndicator(s) == TrimStart(s[a + 1..])
  {
    PatternGlyphsAreNotWhiteSpace(s[a]);
    SkipFromUnique(s, 0, a);
    SkipFromSuffix(s, a + 1);
  }

  /** The replace removes a leading bullet, the whitespace around it and the class member after it. */
  lemma StripBullet(w1: Text, w2: Text, e: CodeUnit, rest: Text)
    requires AllWhiteSpace(w1) && AllWhiteSpace(w2) && InEmojiClass(e)
    ensures StripIndicator(w1 + [BULLET] + w2 + [e] + rest) == TrimStart(rest)
  {
    var s := w1 + [BULLET] + w2 + [e] + rest;
    var a, b := |w1|, |w1| + 1 + |w2|;
    BulletLayout(w1, w2, e, rest, s, a, b);
    StripBulletAt(s, a, b);
  }

  /** Where the parse finds the bullet, the class member and the rest in `w1 + [•] + w2 + [e] + rest`. */
  lemma BulletLayout(w1: Text, w2: Text, e: CodeUnit, rest: Text, s: Text, a: nat, b: nat)
    requires AllWhiteSpace(w1) && AllWhiteSpace(w2) && InEmojiClass(e)
    requires s == w1 + [BULLET] + w2 + [e] + rest && a == |w1| && b == |w1| + 1 + |w2|
    ensures BulletAt(s, a, b) && s[b + 1..] == rest
  {
    assert forall k :: 0 <= k < a ==> s[k] == w1[k];
    assert s[a] == BULLET;
    assert forall k :: a < k < b ==> s[k] == w2[k - a - 1];
    assert s[b] == e;
    assert s[b + 1..] == rest;
    PatternGlyphsAreNotWhiteSpace(s[a]);
    PatternGlyphsAreNotWhiteSpace(s[b]);
    SkipFromUnique(s, 0, a);
    SkipFromUnique(s, a + 1, b);
  }

  /** The replace removes a leading hook arrow and the whitespace around it. */
  lemma StripHook(w1: Text, rest: Text)
    requires AllWhiteSpace(w1)
    ensures StripIndicator(w1 + [HOOK_ARROW] + rest) == TrimStart(rest)
  {
    var s := w1 + [HOOK_ARROW] + rest;
    var a := |w1|;
    assert forall k :: 0 <= k < a ==> s[k] == w1[k];
    assert s[a] == HOOK_ARROW;
    assert s[a + 1..] == rest;
    StripHookAt(s, a);
  }

  /** When the replace leaves whitespace and then `body`, cleaning gives the trimmed body. */
  lemma CleanAfterStrip(s: Text, w: Text, body: Text)
    requires AllWhiteSpace(w) && StripIndicator(s) == TrimStart(w + body)
    ensures CleanPageName(s) == Trim(body)
  {
    TrimStartWhiteSpacePrefix(w, body);
    TrimAfterTrimStart(body);
  }

  /**
   * For the indicators of Approved, Section Title and Sub Category, which
   * are made of Basic Multilingual Plane code units only, cleaning an
   * indicator-prefixed name gives back the trimmed body.
   */
  lemma CleanRemovesBmpIndicator(st: Status, body: Text)
    requires !st.IsAstral()
    ensures CleanPageName(st.Indicator() + body) == Trim(body)
  {
    match st
    case Approved =>
      var w := Spaces(4);
      var pre := Spaces(8) + [BULLET] + Spaces(4) + [0x2705];
      assert st.Indicator() == pre + w;
      assert st.Indicator() + body == pre + (w + body);
      StripBullet(Spaces(8), Spaces(4), 0x2705, w + body);
      CleanAfterStrip(st.Indicator() + body, w, body);
    case SectionTitle =>
      var w := Spaces(3);
      var pre := Spaces(1) + [HOOK_ARROW];
      assert st.Indicator() == pre + w;
      assert st.Indicator() + body == pre + (w + body);
      StripHook(Spaces(1), w + body);
      CleanAfterStrip(st.Indicator() + body, w, body);
    case SubCategory =>
      var w := Spaces(1);
      var pre := Spaces(10) + [HOOK_ARROW];
      assert st.Indicator() == pre + w;
      assert st.Indicator() + body == pre + (w + body);
      StripHook(Spaces(10), w + body);
      CleanAfterStrip(st.Indicator() + body, w, body);
  }

  /** For an emoji outside the Basic Multilingual Plane, the replace stops after the high surrogate. */
  lemma StripAstralIndicator(st: Status, body: Text)
    requires st.IsAstral()
    ensures StripIndicator(st.Indicator() + body) == [st.Emoji()[1]] + Spaces(4) + body
  {
    var high, low := st.Emoji()[0], st.Emoji()[1];
    assert st.Emoji() == [high, low] && InEmojiClass(high);
    StripSurrogatePair(Spaces(8), Spaces(4), high, low, Spaces(4), body);
  }

  /** A bullet followed by a class member that is only the first of two code units leaves the second. */
  lemma StripSurrogatePair(w1: Text, w2: Text, high: CodeUnit, low: CodeUnit, w3: Text, body: Text)
    requires AllWhiteSpace(w1) && AllWhiteSpace(w2) && InEmojiClass(high) && !IsWhiteSpace(low)
    ensures StripIndicator(w1 + [BULLET] + w2 + [high, low] + w3 + body) == [low] + w3 + body
  {
    var rest := [low] + w3 + body;
    assert w1 + [BULLET] + w2 + [high, low] + w3 + body == w1 + [BULLET] + w2 + [high] + rest;
    StripBullet(w1, w2, high, rest);
    TrimStartNoLeading(rest);
  }

  /**
   * For the four emoji outside the Basic Multilingual Plane, the class
   * consumes only the high surrogate: cleaning an indicator-prefixed name
   * leaves the emoji's low surrogate at the front (followed by the
   * indicator's four trailing spaces unless the body is blank), so the
   * result is never the trimmed body.
   */
  lemma CleanKeepsLowSurrogate(st: Status, body: Text)
    requires st.IsAstral()
    ensures var low := st.Emoji()[1];
      CleanPageName(st.Indicator() + body) ==
        if TrimEnd(body) == [] then [low] else [low] + Spaces(4) + TrimEnd(body)
    ensures CleanPageName(st.Indicator() + body) != Trim(body)
  {
    var low := st.Emoji()[1];
    var rest := [low] + Spaces(4) + body;
    StripAstralIndicator(st, body);
    TrimStartNoLeading(rest);
    TrimEndBehindHead(low, Spaces(4), body);
    TrimNoLongerThanTrimEnd(body);
    var r := CleanPageName(st.Indicator() + body);
    assert |r| == if TrimEnd(body) == [] then 1 else 5 + |TrimEnd(body)|;
    assert |Trim(body)| <= |TrimEnd(body)|;
  }

  /** A name whose first non-whitespace code unit is neither `•` nor `↪` is only trimmed. */
  lemma CleanWithoutIndicator(name: Text)
    requires var t := TrimStart(name); t == [] || (t[0] != BULLET && t[0] != HOOK_ARROW)
    ensures CleanPageName(name) == Trim(name)
  {
  }

  /** "↪ ↪ x" */
  const DOUBLE_HOOK: Text := [HOOK_ARROW, SPACE, HOOK_ARROW, SPACE, 0x78]
  /** "↪ x" */
  const SINGLE_HOOK: Text := [HOOK_ARROW, SPACE, 0x78]

  /** Cleaning a name that is a hook arrow, one space and a trimmed rest leaves the rest. */
  lemma CleanHookSpace(rest: Text)
    requires rest != [] && NoEdgeWhiteSpace(rest)
    ensures CleanPageName([HOOK_ARROW, SPACE] + rest) == rest
  {
    var s := [HOOK_ARROW, SPACE] + rest;
    StripHookAt(s, 0);
    assert s[1..] == [SPACE] + rest;
    TrimStartWhiteSpacePrefix([SPACE], rest);
    TrimStartNoLeading(rest);
    TrimEndNoTrailing(rest);
  }

  /**
   * Only one indicator is removed, so cleaning is not idempotent:
   * "↪ ↪ x" cleans to "↪ x", which cleans to "x".
   */
  lemma CleanIsNotIdempotent()
    ensures CleanPageName(DOUBLE_HOOK) == SINGLE_HOOK
    ensures CleanPageName(SINGLE_HOOK) == [0x78]
  {
    CleanDoubleHook();
    CleanSingleHook();
  }

  /** "↪ ↪ x" cleans to "↪ x". */
  lemma CleanDoubleHook()
    ensures CleanPageName(DOUBLE_HOOK) == SINGLE_HOOK
  {
    assert DOUBLE_HOOK == [HOOK_ARROW, SPACE] + SINGLE_HOOK;
    assert NoEdgeWhiteSpace(SINGLE_HOOK);
    CleanHookSpace(SINGLE_HOOK);
  }

  /** "↪ x" cleans to "x". */
  lemma CleanSingleHook()
    ensures CleanPageName(SINGLE_HOOK) == [0x78]
  {
    assert SINGLE_HOOK == [HOOK_ARROW, SPACE] + [0x78];
    assert NoEdgeWhiteSpace([0x78]);
    CleanHookSpace([0x78]);
  }
}
