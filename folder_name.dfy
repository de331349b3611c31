/**
 * `sanitizeFolderName`: turns an arbitrary string into a folder name that is
 * valid on Windows, macOS and Linux, then escapes it for a command line.
 *
 * JavaScript strings are sequences of UTF-16 code units, and none of the
 * regular expressions used carries the `u` flag, so every step here works on
 * code units: a character outside the Basic Multilingual Plane is two units,
 * and truncation to 255 counts units.
 *
 * Each step is a recursive function with only its length stated in its
 * contract; what the step guarantees is stated by the lemmas after it.
 */
module FolderName {

  newtype CodeUnit = u: int | 0 <= u < 0x1_0000

  type Text = seq<CodeUnit>

  const Dot: CodeUnit := 0x2E         // .
  const Underscore: CodeUnit := 0x5F  // _
  const Space: CodeUnit := 0x20       // the plain space
  const Backslash: CodeUnit := 0x5C   // \

  /** Longest name kept, in code units. */
  const MaxLength: nat := 255

  const Dynbox: Text := [0x44, 0x79, 0x6E, 0x62, 0x6F, 0x78]  // Dynbox
  const Vault: Text := [0x56, 0x61, 0x75, 0x6C, 0x74]         // Vault

  /** The name used when nothing is left of the input: `Dynbox Vault`. */
  const DefaultName: Text := Dynbox + [Space] + Vault

  /** The default name after escaping: `Dynbox\ Vault`. */
  const EscapedDefaultName: Text := Dynbox + [Backslash, Space] + Vault

  /** The class `[<>:"\/\\|?*\x00-\x1F]`: units no platform allows in a file name. */
  predicate IsForbidden(u: CodeUnit) {
    || u <= 0x1F
    || u == 0x22 || u == 0x2A || u == 0x2F || u == 0x3A  // " * / :
    || u == 0x3C || u == 0x3E || u == 0x3F               // < > ?
    || u == 0x5C || u == 0x7C                            // \ |
  }

  /**
   * `\s`, which is also exactly what `trim` removes: the ECMAScript
   * WhiteSpace and LineTerminator code points.
   */
  predicate IsWhitespace(u: CodeUnit) {
    (0x09 <= u <= 0x0D) || u == 0x20 || u == 0xA0 || u == 0x1680 || (0x2000 <= u <= 0x200A)
    || u == 0x2028 || u == 0x2029 || u == 0x202F || u == 0x205F || u == 0x3000 || u == 0xFEFF
  }

  /** The class ``[&\s!#$^()[\]{}*|;'<>?,`~]`` of units escaped for the shell. */
  predicate NeedsEscape(u: CodeUnit) {
    || IsWhitespace(u)
    || u == 0x21 || u == 0x23 || u == 0x24 || u == 0x26  // ! # $ &
    || u == 0x27 || u == 0x28 || u == 0x29 || u == 0x2A  // ' ( ) *
    || u == 0x2C || u == 0x3B || u == 0x3C || u == 0x3E  // , ; < >
    || u == 0x3F || u == 0x5B || u == 0x5D || u == 0x5E  // ? [ ] ^
    || u == 0x60 || u == 0x7B || u == 0x7C || u == 0x7D  // ` { | }
    || u == 0x7E                                         // ~
  }

  predicate NoForbidden(s: Text) {
    forall i :: 0 <= i < |s| ==> !IsForbidden(s[i])
  }

  /** Every whitespace unit is a plain space and no two whitespace units are adjacent. */
  predicate SingleSpaced(s: Text) {
    && (forall i :: 0 <= i < |s| && IsWhitespace(s[i]) ==> s[i] == Space)
    && (forall i :: 0 <= i < |s| - 1 ==> !(IsWhitespace(s[i]) && IsWhitespace(s[i + 1])))
  }

  /** Neither end is whitespace. */
  predicate Trimmed(s: Text) {
    s == [] || (!IsWhitespace(s[0]) && !IsWhitespace(s[|s| - 1]))
  }

  /** The units of `s` that are not whitespace, in order. */
  function NonWhitespace(s: Text): Text {
    if s == [] then []
    else (if IsWhitespace(s[0]) then [] else [s[0]]) + NonWhitespace(s[1..])
  }

  lemma {:induction false} NonWhitespaceAppend(a: Text, b: Text)
    ensures NonWhitespace(a + b) == NonWhitespace(a) + NonWhitespace(b)
  {
    if a != [] {
      assert (a + b)[1..] == a[1..] + b;
      NonWhitespaceAppend(a[1..], b);
    } else {
      assert a + b == b;
    }
  }

  lemma SliceOfSuffix(s: Text, lo: nat, n: nat)
    requires lo + n <= |s|
    ensures s[lo..][..n] == s[lo..lo + n]
  {
  }

  /** A prefix `r` of the suffix `t` of `s` from `lo` is the slice of `s` from `lo`. */
  lemma PrefixOfSuffix(s: Text, t: Text, r: Text, lo: nat)
    requires lo <= |s| && t == s[lo..]
    requires |r| <= |t| && r == t[..|r|]
    ensures r == s[lo..lo + |r|]
  {
  }

  /** Slices keep the absence of forbidden units and the single spacing. */
  lemma SliceClean(s: Text, i: nat, j: nat)
    requires i <= j <= |s|
    ensures NoForbidden(s) ==> NoForbidden(s[i..j])
    ensures SingleSpaced(s) ==> SingleSpaced(s[i..j])
  {
    if SingleSpaced(s) {
      var t := s[i..j];
      forall k | 0 <= k < |t| - 1 ensures !(IsWhitespace(t[k]) && IsWhitespace(t[k + 1])) {
        assert t[k] == s[i + k] && t[k + 1] == s[i + k + 1];
      }
    }
  }

  // ---------------------------------------------------------------------
  // Step 1: `.replace(/[<>:"\/\\|?*\x00-\x1F]/g, '')`

  /** The input without its forbidden units. */
  function StripForbidden(s: Text): (r: Text)
    ensures |r| <= |s|
  {
    if s == [] then []
    else (if IsForbidden(s[0]) then [] else [s[0]]) + StripForbidden(s[1..])
  }

  /**
   * A unit is kept exactly when it occurs in the input and is not
   * forbidden, so no forbidden unit is left, and a text without any is left
   * as it is.
   */
  lemma {:induction false} StripForbiddenSpec(s: Text)
    ensures forall u :: u in StripForbidden(s) <==> u in s && !IsForbidden(u)
    ensures NoForbidden(StripForbidden(s))
    ensures NoForbidden(s) ==> StripForbidden(s) == s
  {
    if s != [] {
      StripForbiddenSpec(s[1..]);
      assert s == [s[0]] + s[1..];
      assert forall u :: u in s <==> u == s[0] || u in s[1..];
      assert NoForbidden(s) ==> NoForbidden(s[1..]);
    }
  }

  /** The units are kept in their order: stripping a concatenation strips each part. */
  lemma {:induction false} StripForbiddenAppend(a: Text, b: Text)
    ensures StripForbidden(a + b) == StripForbidden(a) + StripForbidden(b)
  {
    if a == [] {
      assert a + b == b;
    } else {
      assert (a + b)[0] == a[0];
      assert (a + b)[1..] == a[1..] + b;
      StripForbiddenAppend(a[1..], b);
    }
  }

  // ---------------------------------------------------------------------
  // Step 2: `.replace(/^\.+|\.+$/g, '_')`

  predicate AllDots(s: Text) {
    forall i :: 0 <= i < |s| ==> s[i] == Dot
  }

  /** `s` without its leading run of dots (the greedy match of `^\.+`). */
  function DropLeadingDots(s: Text): (r: Text)
    ensures |r| <= |s|
  {
    if s != [] && s[0] == Dot then DropLeadingDots(s[1..]) else s
  }

  lemma {:induction false} DropLeadingDotsSpec(s: Text)
    ensures var r := DropLeadingDots(s);
            && r == s[|s| - |r|..]
            && (forall i :: 0 <= i < |s| - |r| ==> s[i] == Dot)
            && (r == [] || r[0] != Dot)
  {
    if s != [] && s[0] == Dot {
      var t := s[1..];
      DropLeadingDotsSpec(t);
      var r := DropLeadingDots(t);
      assert DropLeadingDots(s) == r;
      assert forall i :: 0 <= i < |t| - |r| ==> t[i] == Dot;
      forall i | 0 <= i < |s| - |r| ensures s[i] == Dot {
        if i > 0 { assert s[i] == t[i - 1]; }
      }
    }
  }

  /** `s` without its trailing run of dots. */
  function DropTrailingDots(s: Text): (r: Text)
    ensures |r| <= |s|
  {
    if s != [] && s[|s| - 1] == Dot then DropTrailingDots(s[..|s| - 1]) else s
  }

  lemma {:induction false} DropTrailingDotsSpec(s: Text)
    ensures var r := DropTrailingDots(s);
            && r == s[..|r|]
            && (forall i :: |r| <= i < |s| ==> s[i] == Dot)
            && (r == [] || r[|r| - 1] != Dot)
  {
    if s != [] && s[|s| - 1] == Dot {
      DropTrailingDotsSpec(s[..|s| - 1]);
      var r := DropTrailingDots(s);
      forall i | |r| <= i < |s| ensures s[i] == Dot {
        if i < |s| - 1 { assert s[i] == s[..|s| - 1][i]; }
      }
    }
  }

  /** A prefix `s[..k]` followed only by dots and not itself ending in a dot is the one DropTrailingDots keeps. */
  lemma {:induction false} DropTrailingDotsUnique(s: Text, k: nat)
    requires k <= |s|
    requires forall i :: k <= i < |s| ==> s[i] == Dot
    requires k == 0 || s[k - 1] != Dot
    ensures DropTrailingDots(s) == s[..k]
    decreases |s|
  {
    if k < |s| {
      var t := s[..|s| - 1];
      assert forall i :: k <= i < |t| ==> t[i] == s[i];
      assert k == 0 || t[k - 1] == s[k - 1];
      DropTrailingDotsUnique(t, k);
      assert t[..k] == s[..k];
    } else {
      assert s[..k] == s;
    }
  }

  /**
   * The scan of the global replacement once it has left the start of the
   * string: only `\.+$` can match there, and it matches at the first
   * position from which every unit up to the end is a dot.
   */
  function ReplaceTrailingDots(s: Text): Text {
    if s == [] then []
    else if AllDots(s) then [Underscore]
    else [s[0]] + ReplaceTrailingDots(s[1..])
  }

  /**
   * The whole global replacement as the regex engine scans it: at the start
   * `^\.+` is tried first and consumes the leading run.
   */
  function ScanEdgeDots(s: Text): Text {
    if s != [] && s[0] == Dot then [Underscore] + ReplaceTrailingDots(DropLeadingDots(s))
    else ReplaceTrailingDots(s)
  }

  lemma DropTrailingDotsCons(s: Text)
    requires s != [] && !AllDots(s)
    ensures DropTrailingDots(s) == [s[0]] + DropTrailingDots(s[1..])
  {
    var t := DropTrailingDots(s[1..]);
    DropTrailingDotsSpec(s[1..]);
    if t == [] {
      assert AllDots(s[1..]) by {
        forall i | 0 <= i < |s[1..]| ensures s[1..][i] == Dot { }
      }
      if s[0] == Dot {
        assert AllDots(s) by {
          forall i | 0 <= i < |s| ensures s[i] == Dot {
            if i > 0 { assert s[i] == s[1..][i - 1]; }
          }
        }
      }
    } else {
      assert s[|t|] == t[|t| - 1];
    }
    forall i | |t| + 1 <= i < |s| ensures s[i] == Dot {
      assert s[i] == s[1..][i - 1];
    }
    DropTrailingDotsUnique(s, |t| + 1);
    assert s[..|t| + 1] == [s[0]] + t;
  }

  /** One underscore where a run of dots was replaced, nothing otherwise. */
  function UnderscoreIf(replaced: bool): Text {
    if replaced then [Underscore] else []
  }

  /** After the start, a trailing run of dots becomes one underscore and nothing else changes. */
  lemma {:induction false} ReplaceTrailingDotsShape(s: Text)
    ensures var core := DropTrailingDots(s);
            ReplaceTrailingDots(s) == core + UnderscoreIf(|core| < |s|)
  {
    if s != [] {
      if AllDots(s) {
        DropTrailingDotsUnique(s, 0);
      } else {
        ReplaceTrailingDotsShape(s[1..]);
        DropTrailingDotsCons(s);
      }
    }
  }

  /**
   * Step 2 as a whole: a leading run of dots becomes a single underscore,
   * and so does a trailing one; everything between them is kept. (A string
   * made only of dots becomes one underscore.)
   */
  function ReplaceEdgeDots(s: Text): Text {
    var rest := DropLeadingDots(s);
    var core := DropTrailingDots(rest);
    UnderscoreIf(|rest| < |s|) + core + UnderscoreIf(|core| < |rest|)
  }

  /** The scan of the regex engine produces exactly the replacement described by `ReplaceEdgeDots`. */
  lemma ScanEdgeDotsAgrees(s: Text)
    ensures ScanEdgeDots(s) == ReplaceEdgeDots(s)
  {
    var rest := DropLeadingDots(s);
    ReplaceTrailingDotsShape(rest);
    if s != [] && s[0] == Dot {
      LeadingRunShape(s, rest, DropTrailingDots(rest));
    } else {
      NoLeadingRunShape(s, DropTrailingDots(s));
    }
  }

  lemma LeadingRunShape(s: Text, rest: Text, core: Text)
    requires s != [] && s[0] == Dot
    requires rest == DropLeadingDots(s) && core == DropTrailingDots(rest)
    requires ReplaceTrailingDots(rest) == core + UnderscoreIf(|core| < |rest|)
    ensures ScanEdgeDots(s) == [Underscore] + core + UnderscoreIf(|core| < |rest|)
  {
    AppendAssoc([Underscore], core, UnderscoreIf(|core| < |rest|));
  }

  lemma NoLeadingRunShape(s: Text, core: Text)
    requires s == [] || s[0] != Dot
    requires core == DropTrailingDots(s)
    requires ReplaceTrailingDots(s) == core + UnderscoreIf(|core| < |s|)
    ensures ScanEdgeDots(s) == [] + core + UnderscoreIf(|core| < |s|)
  {
    assert [] + core == core;
  }

  lemma AppendAssoc(a: Text, b: Text, c: Text)
    ensures a + (b + c) == a + b + c
  {
  }

  /**
   * Step 2 in parts: an optional underscore, the slice `s[lo..lo + |core|]`
   * that neither starts nor ends with a dot, and an optional underscore; an
   * underscore stands exactly where units were dropped.
   */
  lemma EdgeDotsParts(s: Text) returns (head: Text, lo: nat, core: Text, tail: Text)
    ensures ReplaceEdgeDots(s) == head + core + tail
    ensures lo + |core| <= |s| && core == s[lo..lo + |core|]
    ensures (lo == 0 ==> head == []) && (lo > 0 ==> head == [Underscore])
    ensures (lo + |core| == |s| ==> tail == []) && (lo + |core| < |s| ==> tail == [Underscore])
    ensures core == [] || (core[0] != Dot && core[|core| - 1] != Dot)
    ensures s != [] && core == [] ==> lo > 0
    ensures core == [] ==> lo == |s|
    ensures AllDots(s[..lo]) && AllDots(s[lo + |core|..])
  {
    var rest := DropLeadingDots(s);
    core := DropTrailingDots(rest);
    lo := |s| - |rest|;
    head := UnderscoreIf(|rest| < |s|);
    tail := UnderscoreIf(|core| < |rest|);
    EdgeDotsCoreSlice(s);
    EdgeDotsCoreEnds(s);
    EdgeDotsRuns(s);
  }

  /** What the two drops remove are dots. */
  lemma EdgeDotsRuns(s: Text)
    ensures var rest := DropLeadingDots(s);
            var core := DropTrailingDots(rest);
            && AllDots(s[..|s| - |rest|])
            && AllDots(s[|s| - |rest| + |core|..])
  {
    var rest := DropLeadingDots(s);
    var core := DropTrailingDots(rest);
    DropLeadingDotsSpec(s);
    DropTrailingDotsSpec(rest);
    var lo := |s| - |rest|;
    var t := s[lo + |core|..];
    forall i | 0 <= i < |t| ensures t[i] == Dot {
      assert t[i] == rest[|core| + i];
    }
  }

  lemma EdgeDotsCoreSlice(s: Text)
    ensures var rest := DropLeadingDots(s);
            var core := DropTrailingDots(rest);
            core == s[|s| - |rest|..|s| - |rest| + |core|]
  {
    var rest := DropLeadingDots(s);
    var core := DropTrailingDots(rest);
    DropLeadingDotsSpec(s);
    DropTrailingDotsSpec(rest);
    PrefixOfSuffix(s, rest, core, |s| - |rest|);
  }

  lemma EdgeDotsCoreEnds(s: Text)
    ensures var rest := DropLeadingDots(s);
            var core := DropTrailingDots(rest);
            && (core == [] || (core[0] != Dot && core[|core| - 1] != Dot))
            && (s != [] && core == [] ==> |rest| < |s|)
            && (core == [] ==> rest == [])
  {
    var rest := DropLeadingDots(s);
    var core := DropTrailingDots(rest);
    DropLeadingDotsSpec(s);
    DropTrailingDotsSpec(rest);
    if core != [] {
      assert core[0] == rest[0];
    }
    assert core == [] ==> rest == [];
  }

  /**
   * Step 2: the leading run of dots `s[..lo]` and the trailing run
   * `s[hi..]` (both maximal) each become one underscore when they are not
   * empty, and what lies between is kept; a text made only of dots becomes
   * one underscore. The result never lengthens the text, empties only the
   * empty text, adds no forbidden unit and leaves neither a dot nor (on a
   * trimmed text) whitespace at either end.
   */
  lemma ReplaceEdgeDotsSpec(s: Text) returns (lo: nat, hi: nat)
    ensures lo <= hi <= |s|
    ensures AllDots(s[..lo]) && AllDots(s[hi..])
    ensures lo < hi ==> s[lo] != Dot && s[hi - 1] != Dot
    ensures lo == hi ==> hi == |s|
    ensures ReplaceEdgeDots(s) == UnderscoreIf(lo > 0) + s[lo..hi] + UnderscoreIf(hi < |s|)
    ensures s != [] && AllDots(s) ==> ReplaceEdgeDots(s) == [Underscore]
    ensures var r := ReplaceEdgeDots(s);
            && |r| <= |s|
            && (r == [] <==> s == [])
            && (r == [] || (r[0] != Dot && r[|r| - 1] != Dot))
            && (NoForbidden(s) ==> NoForbidden(r))
            && (Trimmed(s) ==> Trimmed(r))
  {
    var head, core, tail;
    head, lo, core, tail := EdgeDotsParts(s);
    hi := lo + |core|;
    SliceClean(s, lo, hi);
    if core != [] {
      assert core[0] == s[lo] && core[|core| - 1] == s[hi - 1];
      if head == [] { assert core[0] == s[0]; }
      if tail == [] { assert core[|core| - 1] == s[|s| - 1]; }
    }
    PaddedEnds(head, core, tail);
  }

  lemma PaddedEnds(head: Text, core: Text, tail: Text)
    requires head == [] || head == [Underscore]
    requires tail == [] || tail == [Underscore]
    ensures var r := head + core + tail;
            && (core != [] && head == [] ==> r[0] == core[0])
            && (head != [] ==> r[0] == Underscore)
            && (core != [] && tail == [] ==> r[|r| - 1] == core[|core| - 1])
            && (tail != [] ==> r[|r| - 1] == Underscore)
            && (NoForbidden(core) ==> NoForbidden(r))
  {
  }

  /** Step 2 keeps single spacing: it only turns dots at the ends into underscores. */
  lemma ReplaceEdgeDotsSingleSpaced(s: Text)
    requires SingleSpaced(s)
    ensures SingleSpaced(ReplaceEdgeDots(s))
  {
    var head, lo, core, tail := EdgeDotsParts(s);
    SliceClean(s, lo, lo + |core|);
    PaddedSingleSpaced(head, core, tail);
  }

  lemma PaddedSingleSpaced(head: Text, core: Text, tail: Text)
    requires head == [] || head == [Underscore]
    requires tail == [] || tail == [Underscore]
    requires SingleSpaced(core)
    ensures SingleSpaced(head + core + tail)
  {
    var r := head + core + tail;
    forall i | 0 <= i < |r| ensures IsWhitespace(r[i]) ==> r[i] == Space {
      if |head| <= i < |head| + |core| { assert r[i] == core[i - |head|]; }
    }
    forall i | 0 <= i < |r| - 1 ensures !(IsWhitespace(r[i]) && IsWhitespace(r[i + 1])) {
      if |head| <= i && i + 1 < |head| + |core| {
        assert r[i] == core[i - |head|] && r[i + 1] == core[i - |head| + 1];
      }
    }
  }

  // ---------------------------------------------------------------------
  // Steps 3 and 4: `.replace(/\s+/g, ' ')` and `.trim()`

  /** `s` without its leading whitespace. */
  function TrimStart(s: Text): (r: Text)
    ensures |r| <= |s|
  {
    if s != [] && IsWhitespace(s[0]) then TrimStart(s[1..]) else s
  }

  lemma {:induction false} TrimStartSpec(s: Text)
    ensures var r := TrimStart(s);
            && r == s[|s| - |r|..]
            && (forall i :: 0 <= i < |s| - |r| ==> IsWhitespace(s[i]))
            && (r == [] || !IsWhitespace(r[0]))
  {
    if s != [] && IsWhitespace(s[0]) {
      var t := s[1..];
      TrimStartSpec(t);
      var r := TrimStart(t);
      assert TrimStart(s) == r;
      assert forall i :: 0 <= i < |t| - |r| ==> IsWhitespace(t[i]);
      forall i | 0 <= i < |s| - |r| ensures IsWhitespace(s[i]) {
        if i > 0 { assert s[i] == t[i - 1]; }
      }
    }
  }

  /** TrimStart drops whitespace only. */
  lemma {:induction false} TrimStartKeeps(s: Text)
    ensures NonWhitespace(TrimStart(s)) == NonWhitespace(s)
  {
    if s != [] && IsWhitespace(s[0]) {
      TrimStartKeeps(s[1..]);
    }
  }

  /** `s` without its trailing whitespace. */
  function TrimEnd(s: Text): (r: Text)
    ensures |r| <= |s|
  {
    if s != [] && IsWhitespace(s[|s| - 1]) then TrimEnd(s[..|s| - 1]) else s
  }

  lemma {:induction false} TrimEndSpec(s: Text)
    ensures var r := TrimEnd(s);
            && r == s[..|r|]
            && (forall i :: |r| <= i < |s| ==> IsWhitespace(s[i]))
            && (r == [] || !IsWhitespace(r[|r| - 1]))
  {
    if s != [] && IsWhitespace(s[|s| - 1]) {
      var t := s[..|s| - 1];
      TrimEndSpec(t);
      var r := TrimEnd(s);
      forall i | |r| <= i < |s| ensures IsWhitespace(s[i]) {
        if i < |s| - 1 { assert s[i] == t[i]; }
      }
    }
  }

  /** TrimEnd drops whitespace only. */
  lemma {:induction false} TrimEndKeeps(s: Text)
    ensures NonWhitespace(TrimEnd(s)) == NonWhitespace(s)
  {
    if s != [] && IsWhitespace(s[|s| - 1]) {
      var t := s[..|s| - 1];
      TrimEndKeeps(t);
      assert s == t + [s[|s| - 1]];
      NonWhitespaceAppend(t, [s[|s| - 1]]);
      assert NonWhitespace([s[|s| - 1]]) == [];
      assert NonWhitespace(t) + [] == NonWhitespace(t);
    }
  }

  /** Step 4: `trim`. */
  function Trim(s: Text): Text {
    TrimEnd(TrimStart(s))
  }

  /** The trimmed text is the slice `s[lo..hi]`, everything outside it is whitespace, and neither of its ends is. */
  lemma TrimSlice(s: Text) returns (lo: nat, hi: nat)
    ensures lo <= hi <= |s| && Trim(s) == s[lo..hi]
    ensures forall i :: 0 <= i < lo ==> IsWhitespace(s[i])
    ensures forall i :: hi <= i < |s| ==> IsWhitespace(s[i])
    ensures Trimmed(Trim(s))
    ensures lo > 0 ==> IsWhitespace(s[0])
    ensures hi < |s| ==> IsWhitespace(s[|s| - 1])
  {
    var t := TrimStart(s);
    TrimStartSpec(s);
    var r := TrimEnd(t);
    TrimEndSpec(t);
    lo := |s| - |t|;
    hi := lo + |r|;
    TrimSliceOf(s, t, r);
    assert Trim(s) == r;
  }

  /** The trim from its two halves: `t` is `s` without leading whitespace and `r` is `t` without trailing whitespace. */
  lemma TrimSliceOf(s: Text, t: Text, r: Text)
    requires |t| <= |s| && t == s[|s| - |t|..]
    requires forall i :: 0 <= i < |s| - |t| ==> IsWhitespace(s[i])
    requires t == [] || !IsWhitespace(t[0])
    requires |r| <= |t| && r == t[..|r|]
    requires forall i :: |r| <= i < |t| ==> IsWhitespace(t[i])
    requires r == [] || !IsWhitespace(r[|r| - 1])
    ensures var lo := |s| - |t|;
            && r == s[lo..lo + |r|]
            && Trimmed(r)
            && (lo > 0 ==> IsWhitespace(s[0]))
            && (lo + |r| < |s| ==> IsWhitespace(s[|s| - 1]))
            && (forall i :: lo + |r| <= i < |s| ==> IsWhitespace(s[i]))
  {
    var lo := |s| - |t|;
    SliceOfSuffix(s, lo, |r|);
    forall i | lo + |r| <= i < |s| ensures IsWhitespace(s[i]) {
      assert s[i] == t[i - lo];
    }
    if r != [] {
      assert r[0] == t[0];
    }
    if lo + |r| < |s| && |t| > 0 {
      assert t[|t| - 1] == s[|s| - 1];
    }
  }


  /**
   * Trimming keeps the slice `s[lo..hi]` and drops only the whitespace
   * around it: no whitespace is left at either end and the non-whitespace
   * units are those of `s`. It keeps the absence of forbidden units and the
   * single spacing, and leaves a trimmed text as it is.
   */
  lemma TrimSpec(s: Text) returns (lo: nat, hi: nat)
    ensures lo <= hi <= |s| && Trim(s) == s[lo..hi]
    ensures forall i :: 0 <= i < lo ==> IsWhitespace(s[i])
    ensures forall i :: hi <= i < |s| ==> IsWhitespace(s[i])
    ensures NonWhitespace(Trim(s)) == NonWhitespace(s)
    ensures var r := Trim(s);
            && Trimmed(r)
            && (NoForbidden(s) ==> NoForbidden(r))
            && (SingleSpaced(s) ==> SingleSpaced(r))
            && (Trimmed(s) ==> r == s)
  {
    lo, hi := TrimSlice(s);
    SliceClean(s, lo, hi);
    TrimKeeps(s);
    if Trimmed(s) {
      assert s[0..|s|] == s;
    }
  }

  /** Trimming drops whitespace only. */
  lemma TrimKeeps(s: Text)
    ensures NonWhitespace(Trim(s)) == NonWhitespace(s)
  {
    TrimStartKeeps(s);
    TrimEndKeeps(TrimStart(s));
  }

  /** Step 3: every run of whitespace becomes one space (the run is the first unit and what TrimStart drops after it). */
  function CollapseWhitespace(s: Text): Text
    decreases |s|
  {
    if s == [] then []
    else if IsWhitespace(s[0]) then [Space] + CollapseWhitespace(TrimStart(s[1..]))
    else [s[0]] + CollapseWhitespace(s[1..])
  }

  /** Collapsing empties only the empty text and keeps whether each end is whitespace. */
  lemma {:induction false} CollapseWhitespaceEnds(s: Text)
    ensures var r := CollapseWhitespace(s);
            && (r == [] <==> s == [])
            && (r != [] ==> (IsWhitespace(r[0]) <==> IsWhitespace(s[0])))
            && (r != [] ==> (IsWhitespace(r[|r| - 1]) <==> IsWhitespace(s[|s| - 1])))
    decreases |s|
  {
    if s != [] {
      var tail := if IsWhitespace(s[0]) then TrimStart(s[1..]) else s[1..];
      TrimStartSpec(s[1..]);
      CollapseWhitespaceEnds(tail);
      if tail == [] && IsWhitespace(s[0]) && |s| > 1 {
        assert IsWhitespace(s[1..][|s| - 2]);
      }
      if tail != [] {
        assert tail[|tail| - 1] == s[|s| - 1];
      }
    }
  }

  /** A unit in front of a single-spaced text that cannot make two whitespace units meet. */
  lemma ConsSingleSpaced(u: CodeUnit, s: Text)
    requires SingleSpaced(s)
    requires IsWhitespace(u) ==> u == Space && (s == [] || !IsWhitespace(s[0]))
    ensures SingleSpaced([u] + s)
  {
    var r := [u] + s;
    forall i | 0 < i < |r| ensures r[i] == s[i - 1] { }
  }

  /** After collapsing, the text is single-spaced. */
  lemma {:induction false} CollapseWhitespaceSpaced(s: Text)
    ensures SingleSpaced(CollapseWhitespace(s))
    decreases |s|
  {
    if s != [] {
      if IsWhitespace(s[0]) {
        var rest := TrimStart(s[1..]);
        TrimStartSpec(s[1..]);
        CollapseWhitespaceSpaced(rest);
        CollapseWhitespaceEnds(rest);
        ConsSingleSpaced(Space, CollapseWhitespace(rest));
      } else {
        CollapseWhitespaceSpaced(s[1..]);
        ConsSingleSpaced(s[0], CollapseWhitespace(s[1..]));
      }
    }
  }

  /** Collapsing keeps every unit that is not whitespace, in order, and adds only spaces. */
  lemma {:induction false} CollapseWhitespaceKeeps(s: Text)
    ensures NonWhitespace(CollapseWhitespace(s)) == NonWhitespace(s)
    decreases |s|
  {
    if s != [] {
      if IsWhitespace(s[0]) {
        var rest := TrimStart(s[1..]);
        TrimStartKeeps(s[1..]);
        CollapseWhitespaceKeeps(rest);
        assert NonWhitespace([Space] + CollapseWhitespace(rest)) == NonWhitespace(CollapseWhitespace(rest));
      } else {
        CollapseWhitespaceKeeps(s[1..]);
        assert NonWhitespace([s[0]] + CollapseWhitespace(s[1..])) == [s[0]] + NonWhitespace(CollapseWhitespace(s[1..]));
      }
    }
  }

  /** Collapsing introduces no forbidden unit. */
  lemma {:induction false} CollapseWhitespaceNoForbidden(s: Text)
    requires NoForbidden(s)
    ensures NoForbidden(CollapseWhitespace(s))
    decreases |s|
  {
    if s != [] {
      var rest := if IsWhitespace(s[0]) then TrimStart(s[1..]) else s[1..];
      TrimStartSpec(s[1..]);
      SliceClean(s, |s| - |rest|, |s|);
      CollapseWhitespaceNoForbidden(rest);
    }
  }

  /** A text that is already single-spaced is left as it is. */
  lemma {:induction false} CollapseSingleSpaced(s: Text)
    requires SingleSpaced(s)
    ensures CollapseWhitespace(s) == s
    decreases |s|
  {
    if s != [] {
      var tail := s[1..];
      SliceClean(s, 1, |s|);
      CollapseSingleSpaced(tail);
      if IsWhitespace(s[0]) {
        assert tail == [] || !IsWhitespace(tail[0]);
        assert TrimStart(tail) == tail;
        assert CollapseWhitespace(s) == [Space] + tail;
      } else {
        assert CollapseWhitespace(s) == [s[0]] + tail;
      }
      assert s == [s[0]] + tail;
    }
  }

  // ---------------------------------------------------------------------
  // Step 5: reserved device names `/^(con|prn|aux|nul|com[1-9]|lpt[1-9])$/i`

  /** ASCII lower-casing, which is what the `i` flag compares without `u`. */
  function LowerAscii(u: CodeUnit): CodeUnit {
    if 'A' as CodeUnit <= u <= 'Z' as CodeUnit then u + 0x20 else u
  }

  /** `s` spells the lower-case ASCII `word`, ignoring case. */
  predicate Spells(s: Text, word: string) {
    |s| == |word| && forall i :: 0 <= i < |s| ==> LowerAscii(s[i]) as int == word[i] as int
  }

  predicate IsReservedName(s: Text) {
    || (|s| == 3 && (Spells(s, "con") || Spells(s, "prn") || Spells(s, "aux") || Spells(s, "nul")))
    || (|s| == 4 && (Spells(s[..3], "com") || Spells(s[..3], "lpt"))
        && '1' as CodeUnit <= s[3] <= '9' as CodeUnit)
  }

  /** A reserved name is three letters, possibly followed by a digit. */
  lemma ReservedNameUnits(s: Text)
    requires IsReservedName(s)
    ensures 3 <= |s| <= 4
    ensures forall i :: 0 <= i < |s| ==> 0x31 <= s[i] <= 0x39 || 0x41 <= s[i] <= 0x5A || 0x61 <= s[i] <= 0x7A
  {
    forall i | 0 <= i < |s| ensures 0x31 <= s[i] <= 0x39 || 0x41 <= s[i] <= 0x5A || 0x61 <= s[i] <= 0x7A {
      if i < 3 {
        var w := if |s| == 3 then s else s[..3];
        assert w[i] == s[i];
        assert 'a' as int <= LowerAscii(s[i]) as int <= 'z' as int;
      }
    }
  }

  /** Guards a reserved device name with a leading underscore. */
  function GuardReserved(s: Text): (r: Text)
    ensures !IsReservedName(r)
  {
    if IsReservedName(s) then
      var r := [Underscore] + s;
      assert !Spells(r[..3], "com") && !Spells(r[..3], "lpt") by {
        assert LowerAscii(r[0]) == Underscore;
      }
      r
    else
      s
  }

  /**
   * The guard changes only a reserved name, by one underscore in front, so it
   * keeps the absence of forbidden units, the single spacing, the last unit
   * and the absence of whitespace at either end.
   */
  lemma GuardReservedSpec(s: Text)
    ensures var r := GuardReserved(s);
            && (IsReservedName(s) ==> r == [Underscore] + s && |s| <= 4)
            && (!IsReservedName(s) ==> r == s)
            && (NoForbidden(s) ==> NoForbidden(r))
            && (SingleSpaced(s) ==> SingleSpaced(r))
            && (Trimmed(s) ==> Trimmed(r))
            && (r != [] ==> r[0] == s[0] || r[0] == Underscore)
            && (r != [] ==> r[|r| - 1] == s[|s| - 1])
  {
    if IsReservedName(s) {
      ReservedNameUnits(s);
      var r := [Underscore] + s;
      assert forall i :: 0 < i < |r| ==> r[i] == s[i - 1];
    }
  }

  // ---------------------------------------------------------------------
  // The pipeline

  /** Steps 1 to 4. */
  function Cleaned(input: Text): Text {
    Trim(CollapseWhitespace(ReplaceEdgeDots(StripForbidden(input))))
  }

  /** Steps 5 and 6: the reserved-name guard, then the default name for an empty result. */
  function GuardOrDefault(c: Text): Text {
    var guarded := GuardReserved(c);
    if guarded == [] then DefaultName else guarded
  }

  /** Step 7: `slice(0, 255)`. */
  function Truncate(named: Text): (r: Text)
    ensures |r| <= MaxLength
  {
    named[..if |named| <= MaxLength then |named| else MaxLength]
  }

  /** The name before the final escaping: steps 1 to 7. */
  function Presanitized(input: Text): Text {
    Truncate(GuardOrDefault(Cleaned(input)))
  }

  /** `sanitizeFolderName(input)`; the empty string (the only falsy string) gives the empty string. */
  function SanitizeFolderName(input: Text): Text {
    if input == [] then [] else Escape(Presanitized(input))
  }

  // ---------------------------------------------------------------------
  // Step 8: `.replace(/([&\s!#$^()[\]{}*|;'<>?,`~])/g, '\\$1')`

  /** Puts a backslash before every unit that needs escaping. */
  function Escape(s: Text): (r: Text)
    ensures |r| >= |s|
  {
    if s == [] then []
    else (if NeedsEscape(s[0]) then [Backslash, s[0]] else [s[0]]) + Escape(s[1..])
  }

  /** Drops each backslash and keeps the unit after it. */
  function Unescape(r: Text): Text {
    if r == [] then []
    else if r[0] == Backslash && |r| >= 2 then [r[1]] + Unescape(r[2..])
    else [r[0]] + Unescape(r[1..])
  }

  /** Every unit that needs escaping comes right after a backslash, and no other backslash occurs. */
  predicate WellEscaped(r: Text)
    decreases |r|
  {
    || r == []
    || (|r| >= 2 && r[0] == Backslash && NeedsEscape(r[1]) && WellEscaped(r[2..]))
    || (r[0] != Backslash && !NeedsEscape(r[0]) && WellEscaped(r[1..]))
  }

  lemma {:induction false} EscapeAppend(a: Text, b: Text)
    ensures Escape(a + b) == Escape(a) + Escape(b)
  {
    if a == [] {
      assert a + b == b;
    } else {
      assert (a + b)[1..] == a[1..] + b;
      EscapeAppend(a[1..], b);
    }
  }

  /** A text with nothing to escape is left as it is. */
  lemma {:induction false} EscapeNothingToEscape(s: Text)
    requires forall u :: u in s ==> !NeedsEscape(u)
    ensures Escape(s) == s
  {
    if s != [] {
      assert forall u :: u in s[1..] ==> u in s;
      EscapeNothingToEscape(s[1..]);
      assert s == [s[0]] + s[1..];
    }
  }

  /** Two words with nothing to escape around a space: only the space is escaped. */
  lemma EscapeAroundSpace(a: Text, b: Text)
    requires forall u :: u in a ==> !NeedsEscape(u)
    requires forall u :: u in b ==> !NeedsEscape(u)
    ensures Escape(a + [Space] + b) == a + [Backslash, Space] + b
  {
    assert a + [Space] + b == a + ([Space] + b);
    EscapeAppend(a, [Space] + b);
    EscapeNothingToEscape(a);
    assert ([Space] + b)[1..] == b;
    EscapeNothingToEscape(b);
  }

  /** Escaping a text without backslashes is undone by Unescape. */
  lemma {:induction false} UnescapeEscape(s: Text)
    requires Backslash !in s
    ensures Unescape(Escape(s)) == s
  {
    if s != [] {
      assert Backslash !in s[1..];
      UnescapeEscape(s[1..]);
      var e := Escape(s);
      if NeedsEscape(s[0]) {
        assert e[2..] == Escape(s[1..]);
      } else {
        assert e[1..] == Escape(s[1..]);
      }
    }
  }

  /** Escaping a text without backslashes leaves no unit that needs escaping unescaped. */
  lemma {:induction false} EscapeIsWellEscaped(s: Text)
    requires Backslash !in s
    ensures WellEscaped(Escape(s))
  {
    if s != [] {
      assert Backslash !in s[1..];
      EscapeIsWellEscaped(s[1..]);
      var e := Escape(s);
      if NeedsEscape(s[0]) {
        assert e[2..] == Escape(s[1..]);
      } else {
        assert e[1..] == Escape(s[1..]);
      }
    }
  }

  // ---------------------------------------------------------------------
  // What the pipeline guarantees

  lemma DefaultNameClean()
    ensures 0 < |DefaultName| <= MaxLength
    ensures NoForbidden(DefaultName) && SingleSpaced(DefaultName) && Trimmed(DefaultName)
    ensures DefaultName[0] != Dot && DefaultName[|DefaultName| - 1] != Dot
    ensures !IsReservedName(DefaultName)
  {
  }

  lemma EscapeDefaultName()
    ensures Escape(DefaultName) == EscapedDefaultName
  {
    assert forall u :: u in Dynbox ==> !NeedsEscape(u);
    assert forall u :: u in Vault ==> !NeedsEscape(u);
    EscapeAroundSpace(Dynbox, Vault);
  }

  /** Steps 1 to 4 leave no forbidden unit, single spaces only, and no whitespace at either end. */
  lemma CleanedIsClean(input: Text)
    ensures var c := Cleaned(input); NoForbidden(c) && SingleSpaced(c) && Trimmed(c)
  {
    var stripped := StripForbidden(input);
    StripForbiddenSpec(input);
    var dotted := ReplaceEdgeDots(stripped);
    var lo, hi := ReplaceEdgeDotsSpec(stripped);
    var collapsed := CollapseWhitespace(dotted);
    CollapseWhitespaceNoForbidden(dotted);
    CollapseWhitespaceSpaced(dotted);
    var tlo, thi := TrimSpec(collapsed);
  }

  /** On a text steps 1 to 3 have nothing to do with, cleaning is just the trim. */
  lemma CleanedOfClean(s: Text)
    requires NoForbidden(s) && SingleSpaced(s)
    requires s == [] || (s[0] != Dot && s[|s| - 1] != Dot)
    ensures Cleaned(s) == Trim(s)
  {
    StripForbiddenSpec(s);
    assert DropLeadingDots(s) == s;
    assert DropTrailingDots(s) == s;
    assert ReplaceEdgeDots(s) == s;
    CollapseSingleSpaced(s);
  }

  /** A clean text with no whitespace and no dot at either end is left as it is by steps 1 to 4. */
  lemma CleanedFixed(s: Text)
    requires NoForbidden(s) && SingleSpaced(s) && Trimmed(s)
    requires s == [] || (s[0] != Dot && s[|s| - 1] != Dot)
    ensures Cleaned(s) == s
  {
    CleanedOfClean(s);
    var tlo, thi := TrimSpec(s);
  }

  /**
   * Steps 5 and 6: the result is never empty and never a reserved name; a
   * reserved name gets an underscore in front, an empty text becomes the
   * default name and any other text is kept; cleanliness carries over.
   */
  lemma GuardOrDefaultSpec(c: Text)
    ensures var r := GuardOrDefault(c);
            && r != [] && !IsReservedName(r)
            && (c == [] ==> r == DefaultName)
            && (IsReservedName(c) ==> r == [Underscore] + c)
            && (c != [] && !IsReservedName(c) ==> r == c)
            && (|c| <= MaxLength ==> |r| <= MaxLength)
            && (NoForbidden(c) ==> NoForbidden(r))
            && (SingleSpaced(c) ==> SingleSpaced(r))
            && (Trimmed(c) ==> Trimmed(r))
            && ((c == [] || (c[0] != Dot && c[|c| - 1] != Dot)) ==> r[0] != Dot && r[|r| - 1] != Dot)
  {
    DefaultNameClean();
    GuardReservedSpec(c);
  }

  /** The truncation keeps the first `min(|named|, 255)` units, and what the name holds. */
  lemma TruncateSpec(named: Text)
    ensures var p := Truncate(named);
            && p == named[..|p|]
            && (|named| <= MaxLength ==> p == named)
            && (|named| > MaxLength ==> |p| == MaxLength)
            && (named != [] ==> p != [] && p[0] == named[0])
            && (|named| > MaxLength ==> !IsReservedName(p))
            && (NoForbidden(named) ==> NoForbidden(p) && Backslash !in p)
            && (SingleSpaced(named) ==> SingleSpaced(p))
  {
    var p := Truncate(named);
    SliceClean(named, 0, |p|);
  }

  /**
   * Before escaping, the name is 1 to 255 units long, holds none of the
   * forbidden units (so no backslash either), is single-spaced, does not
   * start with whitespace and is not a reserved device name; when nothing
   * was cut off it does not end with whitespace either.
   */
  lemma PresanitizedIsClean(input: Text)
    ensures var p := Presanitized(input);
            && 0 < |p| <= MaxLength
            && NoForbidden(p) && Backslash !in p
            && SingleSpaced(p)
            && !IsWhitespace(p[0])
            && !IsReservedName(p)
            && (|GuardOrDefault(Cleaned(input))| <= MaxLength ==> !IsWhitespace(p[|p| - 1]))
  {
    var c := Cleaned(input);
    CleanedIsClean(input);
    GuardOrDefaultSpec(c);
    var g := GuardOrDefault(c);
    TruncateSpec(g);
    assert Trimmed(g);
    if |g| <= MaxLength {
      assert Presanitized(input) == g;
    }
  }

  /** Nothing left after cleaning gives the default name. */
  lemma PresanitizedDefault(input: Text)
    requires Cleaned(input) == []
    ensures Presanitized(input) == DefaultName
  {
    GuardOrDefaultSpec(Cleaned(input));
    DefaultNameClean();
    TruncateSpec(DefaultName);
  }

  /** A reserved device name gets an underscore in front. */
  lemma PresanitizedReserved(input: Text)
    requires IsReservedName(Cleaned(input))
    ensures Presanitized(input) == [Underscore] + Cleaned(input)
  {
    var c := Cleaned(input);
    ReservedNameUnits(c);
    GuardOrDefaultSpec(c);
    TruncateSpec(GuardOrDefault(c));
  }

  /** The empty string gives the empty string, and every other input a non-empty name. */
  lemma SanitizeEmptiness(input: Text)
    ensures SanitizeFolderName(input) == [] <==> input == []
  {
    PresanitizedIsClean(input);
  }

  /** Nothing left after cleaning gives the escaped default name, `Dynbox\ Vault`. */
  lemma SanitizeDefault(input: Text)
    requires input != [] && Cleaned(input) == []
    ensures SanitizeFolderName(input) == EscapedDefaultName
  {
    PresanitizedDefault(input);
    EscapeDefaultName();
  }

  /**
   * Every unit that needs escaping is preceded by a backslash, no other
   * backslash occurs, and removing the backslashes gives back the name
   * before escaping.
   */
  lemma SanitizeRoundTrip(input: Text)
    requires input != []
    ensures WellEscaped(SanitizeFolderName(input))
    ensures Unescape(SanitizeFolderName(input)) == Presanitized(input)
  {
    PresanitizedIsClean(input);
    EscapeIsWellEscaped(Presanitized(input));
    UnescapeEscape(Presanitized(input));
  }

  /**
   * `sanitizeFolderName` as a whole: the empty input gives the empty
   * string; any other input gives a well-escaped name which, unescaped, is
   * the name before escaping, 1 to 255 units long, free of forbidden units,
   * single-spaced, not starting with whitespace and not a reserved name.
   */
  lemma SanitizeFolderNameSpec(input: Text)
    ensures input == [] <==> SanitizeFolderName(input) == []
    ensures input != [] ==>
              var p := Unescape(SanitizeFolderName(input));
              && WellEscaped(SanitizeFolderName(input))
              && p == Presanitized(input)
              && 0 < |p| <= MaxLength && NoForbidden(p) && SingleSpaced(p)
              && !IsWhitespace(p[0]) && !IsReservedName(p)
  {
    SanitizeEmptiness(input);
    if input != [] {
      SanitizeRoundTrip(input);
      PresanitizedIsClean(input);
    }
  }

  // ---------------------------------------------------------------------
  // Two inputs for which the name before escaping is not what the comments
  // promise, and a reordering of the steps that keeps those promises.

  /** One space on each side of a trimmed, non-empty text is all the trim removes. */
  lemma TrimPadded(t: Text)
    requires t != [] && Trimmed(t)
    ensures Trim([Space] + t + [Space]) == t
  {
    var s := [Space] + t + [Space];
    assert s[1..] == t + [Space];
    assert TrimStart(s) == TrimStart(t + [Space]);
    assert TrimStart(t + [Space]) == t + [Space];
    assert (t + [Space])[..|t|] == t;
    assert TrimEnd(t + [Space]) == TrimEnd(t);
    assert TrimEnd(t) == t;
  }

  /** A clean text between two spaces is cleaned down to itself, whatever its ends are. */
  lemma CleanedPadded(t: Text)
    requires t != [] && NoForbidden(t) && SingleSpaced(t) && Trimmed(t)
    ensures Cleaned([Space] + t + [Space]) == t
  {
    var s := [Space] + t + [Space];
    assert NoForbidden(s) by {
      forall i | 0 <= i < |s| ensures !IsForbidden(s[i]) {
        if 0 < i < |s| - 1 { assert s[i] == t[i - 1]; }
      }
    }
    assert SingleSpaced(s) by {
      forall i | 0 <= i < |s| && IsWhitespace(s[i]) ensures s[i] == Space {
        if 0 < i < |s| - 1 { assert s[i] == t[i - 1]; }
      }
      forall i | 0 <= i < |s| - 1 ensures !(IsWhitespace(s[i]) && IsWhitespace(s[i + 1])) {
        if 0 < i < |s| - 2 { assert s[i] == t[i - 1] && s[i + 1] == t[i]; }
        if i == 0 { assert s[1] == t[0]; }
        if i == |s| - 2 { assert s[i] == t[|t| - 1]; }
      }
    }
    CleanedOfClean(s);
    TrimPadded(t);
  }

  /** Steps 5 to 7 leave a short name that is not reserved as it is. */
  lemma FinishShort(c: Text)
    requires c != [] && |c| <= MaxLength && !IsReservedName(c)
    ensures Truncate(GuardOrDefault(c)) == c
  {
    GuardOrDefaultSpec(c);
    TruncateSpec(GuardOrDefault(c));
  }

  /** A text longer than 255 units is not reserved, and steps 5 to 7 cut it to its first 255. */
  lemma FinishLong(c: Text)
    requires |c| > MaxLength
    ensures Truncate(GuardOrDefault(c)) == c[..MaxLength]
  {
    GuardOrDefaultSpec(c);
    assert !IsReservedName(c);
    assert GuardOrDefault(c) == c;
  }

  /** A cleaned text longer than 255 units is cut to its first 255. */
  lemma PresanitizedOfLong(input: Text)
    requires |Cleaned(input)| > MaxLength
    ensures Presanitized(input) == Cleaned(input)[..MaxLength]
  {
    FinishLong(Cleaned(input));
  }

  /** A clean input longer than 255 units with nothing for steps 1 to 4 to do is only cut. */
  lemma PresanitizedOfLongClean(s: Text)
    requires |s| > MaxLength
    requires NoForbidden(s) && SingleSpaced(s) && Trimmed(s)
    requires s[0] != Dot && s[|s| - 1] != Dot
    ensures Presanitized(s) == s[..MaxLength]
  {
    CleanedFixed(s);
    PresanitizedOfLong(s);
  }

  /** `n` dots. */
  function Dots(n: nat): (r: Text)
    ensures |r| == n && forall i :: 0 <= i < n ==> r[i] == Dot
  {
    seq(n, _ => Dot)
  }

  /**
   * A dot run shielded by whitespace survives step 2 and is exposed by the
   * trim: " . " gives "." and " .. " gives "..", and escaping keeps them.
   */
  lemma EdgeDotsSurviveTrim(n: nat)
    requires 0 < n <= MaxLength
    ensures Presanitized([Space] + Dots(n) + [Space]) == Dots(n)
    ensures SanitizeFolderName([Space] + Dots(n) + [Space]) == Dots(n)
  {
    var dots := Dots(n);
    DotsClean(n);
    CleanedPadded(dots);
    FinishShort(dots);
    EscapeNothingToEscape(dots);
  }

  /** A run of dots is clean, is not a reserved name and has nothing to escape. */
  lemma DotsClean(n: nat)
    ensures var dots := Dots(n);
            && NoForbidden(dots) && SingleSpaced(dots) && Trimmed(dots)
            && !IsReservedName(dots)
            && forall u :: u in dots ==> !NeedsEscape(u)
  {
    var dots := Dots(n);
    if |dots| == 4 { assert LowerAscii(dots[0]) == Dot; }
    if |dots| == 3 { assert LowerAscii(dots[0]) == Dot; }
  }

  /**
   * Truncation comes after the trim, so a clean input whose 255th unit is a
   * space loses its end and keeps that space as its last unit (for instance
   * 254 units `a`, a space and `b`).
   */
  lemma TruncationLeavesTrailingSpace(s: Text)
    requires |s| > MaxLength && s[MaxLength - 1] == Space
    requires NoForbidden(s) && SingleSpaced(s) && Trimmed(s)
    requires s[0] != Dot && s[|s| - 1] != Dot
    ensures var p := Presanitized(s); |p| == MaxLength && p[|p| - 1] == Space
  {
    PresanitizedOfLongClean(s);
  }

  /**
   * The evident intent: strip, collapse and trim first, truncate and trim
   * again, and only then replace the dot runs at the ends, guard reserved
   * names and fall back to the default name.
   */
  function IntendedPresanitized(input: Text): Text {
    var trimmed := Trim(CollapseWhitespace(StripForbidden(input)));
    GuardOrDefault(ReplaceEdgeDots(Trim(Truncate(trimmed))))
  }

  /** Truncating and trimming a clean text and then replacing its edge dots gives a clean text of at most 255 units. */
  lemma IntendedCutClean(t: Text)
    requires NoForbidden(t) && SingleSpaced(t)
    ensures var d := ReplaceEdgeDots(Trim(Truncate(t)));
            && |d| <= MaxLength && NoForbidden(d) && SingleSpaced(d) && Trimmed(d)
            && (d == [] || (d[0] != Dot && d[|d| - 1] != Dot))
  {
    TruncateSpec(t);
    var cut := Trim(Truncate(t));
    var tlo, thi := TrimSpec(Truncate(t));
    assert |cut| <= |Truncate(t)|;
    var lo, hi := ReplaceEdgeDotsSpec(cut);
    ReplaceEdgeDotsSingleSpaced(cut);
  }

  /** The last three reordered steps on a clean text. */
  lemma IntendedTailClean(t: Text)
    requires NoForbidden(t) && SingleSpaced(t)
    ensures var p := GuardOrDefault(ReplaceEdgeDots(Trim(Truncate(t))));
            && 0 < |p| <= MaxLength
            && NoForbidden(p) && SingleSpaced(p) && Trimmed(p)
            && p[0] != Dot && p[|p| - 1] != Dot
            && !IsReservedName(p)
  {
    IntendedCutClean(t);
    GuardOrDefaultClean(ReplaceEdgeDots(Trim(Truncate(t))));
  }

  /** Steps 5 and 6 keep a clean, short text clean and make it a usable name. */
  lemma GuardOrDefaultClean(d: Text)
    requires |d| <= MaxLength && NoForbidden(d) && SingleSpaced(d) && Trimmed(d)
    requires d == [] || (d[0] != Dot && d[|d| - 1] != Dot)
    ensures var p := GuardOrDefault(d);
            && 0 < |p| <= MaxLength
            && NoForbidden(p) && SingleSpaced(p) && Trimmed(p)
            && p[0] != Dot && p[|p| - 1] != Dot
            && !IsReservedName(p)
  {
    GuardOrDefaultSpec(d);
  }

  /** The reordered steps keep every promise: no whitespace and no dot at either end, and at most 255 units. */
  lemma IntendedPresanitizedIsClean(input: Text)
    ensures var p := IntendedPresanitized(input);
            && 0 < |p| <= MaxLength
            && NoForbidden(p) && SingleSpaced(p) && Trimmed(p)
            && p[0] != Dot && p[|p| - 1] != Dot
            && !IsReservedName(p)
  {
    var stripped := StripForbidden(input);
    StripForbiddenSpec(input);
    CollapseWhitespaceNoForbidden(stripped);
    CollapseWhitespaceSpaced(stripped);
    var trimmed := Trim(CollapseWhitespace(stripped));
    var tlo, thi := TrimSpec(CollapseWhitespace(stripped));
    IntendedTailClean(trimmed);
    assert IntendedPresanitized(input) == GuardOrDefault(ReplaceEdgeDots(Trim(Truncate(trimmed))));
  }

}
