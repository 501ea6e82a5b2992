/**
  * The JavaScript string operations the admin console relies on, with the
  * meaning ECMAScript gives them: `trim`, `startsWith`, `includes`,
  * `replace` with a string pattern, `split` on one character, `join`,
  * `toLowerCase` and the relational operator `<`.
  */
module JsStrings {
  import opened Wrappers

  // ---------------------------------------------------------------- trim

  /** The characters `String.prototype.trim` removes: ECMAScript WhiteSpace
      (TAB, VT, FF, SPACE, NBSP, ZWNBSP and the Zs category) and LineTerminator. */
  const WhitespaceChars: string :=
    "\t\U{000B}\U{000C} \U{00A0}\U{FEFF}\U{1680}"
    + "\U{2000}\U{2001}\U{2002}\U{2003}\U{2004}\U{2005}\U{2006}\U{2007}\U{2008}\U{2009}\U{200A}"
    + "\U{202F}\U{205F}\U{3000}\n\r\U{2028}\U{2029}"

  predicate IsWhitespace(c: char)
  {
    Among(c, WhitespaceChars)
  }

  /** `c` is one of `chars`. */
  predicate Among(c: char, chars: string)
  {
    chars != [] && (chars[0] == c || Among(c, chars[1..]))
  }

  lemma {:induction false} AmongIsMembership(c: char, chars: string)
    ensures Among(c, chars) <==> c in chars
  {
    if chars != [] {
      AmongIsMembership(c, chars[1..]);
      assert chars == [chars[0]] + chars[1..];
    }
  }

  /** The space is whitespace. */
  lemma SpaceIsWhitespace()
    ensures IsWhitespace(' ')
  {
    AmongIsMembership(' ', WhitespaceChars);
    assert WhitespaceChars[3] == ' ';
  }

  /** Visible ASCII characters, such as the comma, are not whitespace. */
  lemma VisibleAsciiIsNotWhitespace(c: char)
    requires '!' <= c <= '~'
    ensures !IsWhitespace(c)
  {
    AmongIsMembership(c, WhitespaceChars);
    assert forall i :: 0 <= i < |WhitespaceChars| ==> !('!' <= WhitespaceChars[i] <= '~');
  }

  predicate AllWhitespace(s: string)
  {
    forall i :: 0 <= i < |s| ==> IsWhitespace(s[i])
  }

  /** A string `trim` leaves alone: it neither begins nor ends with whitespace. */
  predicate IsTrimmed(s: string)
  {
    s == [] || (!IsWhitespace(s[0]) && !IsWhitespace(s[|s| - 1]))
  }

  /** `r` is `s` with a whitespace-only prefix and suffix cut off. */
  ghost predicate IsCoreOf(s: string, r: string)
  {
    exists k :: 0 <= k <= |s| - |r| && AllWhitespace(s[..k]) && s[k..k + |r|] == r
                && AllWhitespace(s[k + |r|..])
  }

  /** The string without its leading whitespace. */
  function TrimStart(s: string): string
  {
    if |s| > 0 && IsWhitespace(s[0]) then TrimStart(s[1..]) else s
  }

  /** The string without its trailing whitespace. */
  function TrimEnd(s: string): string
  {
    if |s| > 0 && IsWhitespace(s[|s| - 1]) then TrimEnd(s[..|s| - 1]) else s
  }

  /** `TrimStart` cuts off the longest whitespace-only prefix. */
  lemma {:induction false} TrimStartCutsWhitespace(s: string)
    ensures var r := TrimStart(s);
      && |r| <= |s| && r == s[|s| - |r|..]
      && AllWhitespace(s[..|s| - |r|])
      && (r == [] || !IsWhitespace(r[0]))
  {
    if |s| > 0 && IsWhitespace(s[0]) {
      TrimStartCutsWhitespace(s[1..]);
      var r := TrimStart(s[1..]);
      assert s[..|s| - |r|] == [s[0]] + s[1..][..|s| - 1 - |r|];
    }
  }

  /** `TrimEnd` cuts off the longest whitespace-only suffix. */
  lemma {:induction false} TrimEndCutsWhitespace(s: string)
    ensures var r := TrimEnd(s);
      && |r| <= |s| && r == s[..|r|]
      && AllWhitespace(s[|r|..])
      && (r == [] || !IsWhitespace(r[|r| - 1]))
  {
    if |s| > 0 && IsWhitespace(s[|s| - 1]) {
      TrimEndCutsWhitespace(s[..|s| - 1]);
      var r := TrimEnd(s[..|s| - 1]);
      assert s[|r|..] == s[..|s| - 1][|r|..] + [s[|s| - 1]];
    }
  }

  /** `String.prototype.trim`. */
  function Trim(s: string): string
  {
    TrimEnd(TrimStart(s))
  }

  /** `trim` leaves a trimmed string, which is empty exactly when the input
      is whitespace only. */
  lemma TrimSpec(s: string)
    ensures IsTrimmed(Trim(s))
    ensures Trim(s) == [] <==> AllWhitespace(s)
  {
    var t := TrimStart(s);
    var r := TrimEnd(t);
    TrimStartCutsWhitespace(s);
    TrimEndCutsWhitespace(t);
    var k := |s| - |t|;
    if r == [] {
      assert s == s[..k] + s[k..];
    } else {
      assert s[k] == r[0];
    }
  }

  /** What `trim` returns is what is left of the string once a
      whitespace-only prefix and a whitespace-only suffix are cut off. */
  lemma TrimIsCore(s: string)
    ensures IsCoreOf(s, Trim(s))
  {
    var t := TrimStart(s);
    var r := TrimEnd(t);
    TrimStartCutsWhitespace(s);
    TrimEndCutsWhitespace(t);
    var k := |s| - |t|;
    assert s[k..k + |r|] == r;
    assert s[k + |r|..] == t[|r|..];
  }

  /** Trimming a string that is already trimmed changes nothing. */
  lemma TrimOfTrimmed(s: string)
    requires IsTrimmed(s)
    ensures Trim(s) == s
  {
    assert TrimStart(s) == s;
  }

  /** `trim` is idempotent. */
  lemma TrimIdempotent(s: string)
    ensures Trim(Trim(s)) == Trim(s)
  {
    TrimSpec(s);
    TrimOfTrimmed(Trim(s));
  }

  /** Whitespace in front of a string does not survive `trim`. */
  lemma TrimIgnoresLeadingWhitespace(w: string, s: string)
    requires AllWhitespace(w)
    ensures Trim(w + s) == Trim(s)
  {
    TrimStartIgnoresLeadingWhitespace(w, s);
  }

  lemma {:induction false} TrimStartIgnoresLeadingWhitespace(w: string, s: string)
    requires AllWhitespace(w)
    ensures TrimStart(w + s) == TrimStart(s)
  {
    if w == [] {
      assert w + s == s;
    } else {
      assert (w + s)[0] == w[0];
      assert (w + s)[1..] == w[1..] + s;
      TrimStartIgnoresLeadingWhitespace(w[1..], s);
    }
  }

  /** `value.trim() || undefined`: the trimmed text, or nothing when it is
      blank (`normalizeOptional` in the event form, the translator filters). */
  function TrimOrUndefined(v: string): (r: Option<string>)
    ensures r.None? <==> AllWhitespace(v)
    ensures r.Some? ==> r.value == Trim(v) && IsTrimmed(r.value)
  {
    TrimSpec(v);
    var trimmed := Trim(v);
    if trimmed != [] then Some(trimmed) else None
  }

  /** `trim` only cuts characters off: whatever is left was in the string. */
  lemma TrimKeepsOnlyItsChars(s: string, c: char)
    requires c in Trim(s)
    ensures c in s
  {
    TrimIsCore(s);
    var r := Trim(s);
    var k :| 0 <= k <= |s| - |r| && s[k..k + |r|] == r;
    var j :| 0 <= j < |r| && r[j] == c;
    assert s[k + j] == c;
  }

  // ------------------------------------------------------ prefix / search

  predicate StartsWith(s: string, prefix: string)
  {
    |prefix| <= |s| && s[..|prefix|] == prefix
  }

  /** A text that starts with `q` starts with every prefix of `q`. */
  lemma StartsWithPrefixOf(s: string, p: string, q: string)
    requires StartsWith(q, p)
    ensures StartsWith(s, q) ==> StartsWith(s, p)
  {
    if StartsWith(s, q) {
      assert s[..|p|] == s[..|q|][..|p|];
    }
  }

  lemma StartsWithConcat(p: string, rest: string)
    ensures StartsWith(p + rest, p)
  {
    assert (p + rest)[..|p|] == p;
  }

  lemma StartsWithChar(s: string, prefix: string, d: nat)
    requires StartsWith(s, prefix) && d < |prefix|
    ensures s[d] == prefix[d]
  {
    assert s[..|prefix|][d] == s[d];
  }

  /** `pattern` occurs in `s` starting at index `i`. */
  predicate OccursAt(s: string, pattern: string, i: int)
  {
    0 <= i && i + |pattern| <= |s| && s[i..i + |pattern|] == pattern
  }

  /** `String.prototype.indexOf`: the first index at which `pattern` occurs. */
  function IndexOf(s: string, pattern: string): (r: Option<nat>)
    ensures r.Some? ==> OccursAt(s, pattern, r.value)
    ensures r.Some? ==> forall j :: 0 <= j < r.value ==> !OccursAt(s, pattern, j)
    ensures r.None? ==> forall j :: !OccursAt(s, pattern, j)
    decreases |s|
  {
    if |pattern| > |s| then None
    else if s[..|pattern|] == pattern then Some(0)
    else match IndexOf(s[1..], pattern)
      case None =>
        assert forall j :: 1 <= j ==> OccursAt(s, pattern, j) == OccursAt(s[1..], pattern, j - 1);
        None
      case Some(i) =>
        assert forall j :: 1 <= j ==> OccursAt(s, pattern, j) == OccursAt(s[1..], pattern, j - 1);
        Some(i + 1)
  }

  /** `String.prototype.includes`. */
  predicate Contains(s: string, pattern: string)
  {
    IndexOf(s, pattern).Some?
  }

  lemma ContainsEmpty(s: string)
    ensures Contains(s, "")
  {
    assert OccursAt(s, "", 0);
  }

  /** `s.replace(pattern, replacement)` with a string pattern: only the first
      occurrence is replaced (the replacements used here hold no `$`). */
  function ReplaceFirst(s: string, pattern: string, replacement: string): string
  {
    match IndexOf(s, pattern)
    case None => s
    case Some(i) => s[..i] + replacement + s[i + |pattern|..]
  }

  /** Where the first occurrence of the pattern is at `i`, the text before it
      is kept, the occurrence replaced and the rest kept. */
  lemma ReplaceFirstReplacesFirstOccurrence(s: string, pattern: string, replacement: string, i: nat)
    requires IndexOf(s, pattern) == Some(i)
    ensures var r := ReplaceFirst(s, pattern, replacement);
      && |r| == |s| - |pattern| + |replacement|
      && r[..i] == s[..i] && r[i..] == replacement + s[i + |pattern|..]
  {
    ConcatParts(s[..i], replacement, s[i + |pattern|..]);
  }

  lemma ConcatParts(a: string, b: string, c: string)
    ensures (a + b + c)[..|a|] == a && (a + b + c)[|a|..] == b + c
  {
  }

  /** When the text starts with the pattern, `replace` swaps that prefix. */
  lemma ReplaceFirstAtStart(s: string, pattern: string, replacement: string)
    requires StartsWith(s, pattern)
    ensures ReplaceFirst(s, pattern, replacement) == replacement + s[|pattern|..]
  {
    assert OccursAt(s, pattern, 0);
    assert IndexOf(s, pattern) == Some(0);
    assert s[..0] + replacement == replacement;
  }

  // ----------------------------------------------------------- lower case

  predicate IsAsciiLetter(c: char)
  {
    ('a' <= c <= 'z') || ('A' <= c <= 'Z')
  }

  function AsciiLower(c: char): char
  {
    if 'A' <= c <= 'Z' then (c as int + 32) as char else c
  }

  function AsciiUpper(c: char): char
  {
    if 'a' <= c <= 'z' then (c as int - 32) as char else c
  }

  /** `toLowerCase` on one character, for the Latin and Cyrillic letters the
      site's content uses (A-Z, U+0400-U+042F); other characters are kept. */
  function LowerChar(c: char): char
  {
    if 'A' <= c <= 'Z' then (c as int + 32) as char
    else if '\U{0410}' <= c <= '\U{042F}' then (c as int + 32) as char
    else if '\U{0400}' <= c <= '\U{040F}' then (c as int + 80) as char
    else c
  }

  /** `String.prototype.toLowerCase`. */
  function Lower(s: string): (r: string)
    ensures |r| == |s|
    ensures forall i :: 0 <= i < |s| ==> r[i] == LowerChar(s[i])
  {
    seq(|s|, i requires 0 <= i < |s| => LowerChar(s[i]))
  }

  /** Lower-casing twice is lower-casing once. */
  lemma LowerIdempotent(s: string)
    ensures Lower(Lower(s)) == Lower(s)
  {
    forall i | 0 <= i < |s|
      ensures LowerChar(LowerChar(s[i])) == LowerChar(s[i])
    {
    }
  }

  /** `a || b` on an optional string: both `undefined` and `""` are falsy. */
  function Or(a: Option<string>, b: string): (r: string)
    ensures a.Some? && a.value != [] ==> r == a.value
    ensures a.None? || a.value == [] ==> r == b
  {
    if a.Some? && a.value != [] then a.value else b
  }

  // -------------------------------------------------------- split / join

  function CountChar(s: string, c: char): nat
  {
    if s == [] then 0 else (if s[0] == c then 1 else 0) + CountChar(s[1..], c)
  }

  /** `Array.prototype.join`. */
  function Join(parts: seq<string>, sep: string): string
  {
    if |parts| == 0 then ""
    else if |parts| == 1 then parts[0]
    else parts[0] + sep + Join(parts[1..], sep)
  }

  /** `s.split(sep)` for a one-character separator: the pieces between the
      separators, empty pieces included, so that joining them back with the
      separator gives `s` again. */
  function Split(s: string, sep: char): (parts: seq<string>)
    ensures |parts| == CountChar(s, sep) + 1
    ensures forall i :: 0 <= i < |parts| ==> sep !in parts[i]
    ensures Join(parts, [sep]) == s
  {
    if s == [] then [""]
    else
      var rest := Split(s[1..], sep);
      if s[0] == sep then
        assert s == [sep] + s[1..];
        [""] + rest
      else
        var parts := [[s[0]] + rest[0]] + rest[1..];
        assert parts[1..] == rest[1..];
        assert Join(parts, [sep]) == [s[0]] + Join(rest, [sep]) by {
          if |rest| == 1 {
          } else {
            assert Join(rest, [sep]) == rest[0] + [sep] + Join(rest[1..], [sep]);
          }
        }
        assert s == [s[0]] + s[1..];
        parts
  }

  /** Splitting after a separator-free piece: the piece comes out whole. */
  lemma {:induction false} SplitAfterPiece(a: string, sep: char, b: string)
    requires sep !in a
    ensures Split(a + [sep] + b, sep) == [a] + Split(b, sep)
  {
    if a == [] {
      assert a + [sep] + b == [sep] + b;
      assert ([sep] + b)[1..] == b;
    } else {
      assert (a + [sep] + b)[1..] == a[1..] + [sep] + b;
      SplitAfterPiece(a[1..], sep, b);
      assert [a[0]] + a[1..] == a;
    }
  }

  /** Splitting text with a separator-free prefix glued to its first piece. */
  lemma {:induction false} SplitWithPrefix(w: string, sep: char, t: string)
    requires sep !in w
    ensures var ps := Split(t, sep);
      Split(w + t, sep) == [w + ps[0]] + ps[1..]
  {
    if w == [] {
      var ps := Split(t, sep);
      assert w + t == t && w + ps[0] == ps[0] && [ps[0]] + ps[1..] == ps;
    } else {
      assert (w + t)[0] == w[0] && (w + t)[1..] == w[1..] + t;
      SplitWithPrefix(w[1..], sep, t);
      assert [w[0]] + (w[1..] + Split(t, sep)[0]) == w + Split(t, sep)[0];
    }
  }

  /** Splitting inverts joining when no piece holds the separator. */
  lemma {:induction false} SplitJoin(parts: seq<string>, sep: char)
    requires |parts| >= 1
    requires forall i :: 0 <= i < |parts| ==> sep !in parts[i]
    ensures Split(Join(parts, [sep]), sep) == parts
  {
    if |parts| == 1 {
      SplitNoSeparator(parts[0], sep);
    } else {
      SplitJoin(parts[1..], sep);
      SplitAfterPiece(parts[0], sep, Join(parts[1..], [sep]));
    }
  }

  lemma {:induction false} SplitNoSeparator(s: string, sep: char)
    requires sep !in s
    ensures Split(s, sep) == [s]
  {
    if s != [] {
      SplitNoSeparator(s[1..], sep);
    }
  }

  /** Every character of a piece comes from the split string. */
  lemma {:induction false} SplitPieceChars(s: string, sep: char, i: nat, c: char)
    requires i < |Split(s, sep)| && c in Split(s, sep)[i]
    ensures c in s
  {
    if s != [] {
      var rest := Split(s[1..], sep);
      if s[0] == sep {
        SplitPieceChars(s[1..], sep, i - 1, c);
      } else if i > 0 {
        SplitPieceChars(s[1..], sep, i, c);
      } else if c != s[0] {
        assert c in rest[0];
        SplitPieceChars(s[1..], sep, 0, c);
      }
    }
  }

  /** Every character of the string other than the separator lands in a piece. */
  lemma {:induction false} SplitCoversChars(s: string, sep: char, k: nat)
    requires k < |s| && s[k] != sep
    ensures exists i :: 0 <= i < |Split(s, sep)| && s[k] in Split(s, sep)[i]
  {
    var parts := Split(s, sep);
    var rest := Split(s[1..], sep);
    if k == 0 {
      assert s[0] in parts[0];
    } else {
      SplitCoversChars(s[1..], sep, k - 1);
      var i :| 0 <= i < |rest| && s[1..][k - 1] in rest[i];
      if s[0] == sep {
        assert parts[i + 1] == rest[i];
      } else if i == 0 {
        assert parts[0] == [s[0]] + rest[0];
      } else {
        assert parts[i] == rest[i];
      }
    }
  }

  /** `parts.map((item) => item.trim())`. */
  function TrimEach(parts: seq<string>): (r: seq<string>)
    ensures |r| == |parts|
  {
    if parts == [] then [] else [Trim(parts[0])] + TrimEach(parts[1..])
  }

  /** Each item of `TrimEach(parts)` is the matching part, trimmed. */
  lemma {:induction false} TrimEachItem(parts: seq<string>, i: nat)
    requires i < |parts|
    ensures TrimEach(parts)[i] == Trim(parts[i])
  {
    if i > 0 {
      TrimEachItem(parts[1..], i - 1);
    }
  }

  lemma TrimEachCons(x: string, parts: seq<string>)
    ensures TrimEach([x] + parts) == [Trim(x)] + TrimEach(parts)
  {
    assert ([x] + parts)[1..] == parts;
  }

  /** `s.split(",").map((item) => item.trim())`: every comma-separated piece,
      trimmed, empty pieces kept (the tags input and the first half of the
      translators' list parsing). */
  function SplitCommaTrim(s: string): (r: seq<string>)
    ensures |r| == CountChar(s, ',') + 1
  {
    TrimEach(Split(s, ','))
  }

  /** The `i`-th item is the `i`-th comma-separated piece, trimmed. */
  lemma SplitCommaTrimItem(s: string, i: nat)
    requires i <= CountChar(s, ',')
    ensures SplitCommaTrim(s)[i] == Trim(Split(s, ',')[i])
  {
    TrimEachItem(Split(s, ','), i);
  }

  /** Whitespace-only padding in front of the text does not change its
      trimmed comma-separated pieces. */
  lemma SplitCommaTrimIgnoresPadding(w: string, t: string)
    requires AllWhitespace(w)
    ensures SplitCommaTrim(w + t) == SplitCommaTrim(t)
  {
    NoCommaInWhitespace(w);
    var ps := Split(t, ',');
    SplitWithPrefix(w, ',', t);
    TrimIgnoresLeadingWhitespace(w, ps[0]);
    TrimEachSameHead(w + ps[0], ps[0], ps[1..]);
    assert [ps[0]] + ps[1..] == ps;
  }

  lemma NoCommaInWhitespace(w: string)
    requires AllWhitespace(w)
    ensures ',' !in w
  {
    VisibleAsciiIsNotWhitespace(',');
    assert forall i :: 0 <= i < |w| ==> w[i] != ',';
  }

  lemma TrimEachSameHead(a: string, b: string, rest: seq<string>)
    requires Trim(a) == Trim(b)
    ensures TrimEach([a] + rest) == TrimEach([b] + rest)
  {
    TrimEachCons(a, rest);
    TrimEachCons(b, rest);
  }

  /** A comma-free piece in front of a comma comes out as one trimmed item. */
  lemma SplitCommaTrimAfterPiece(a: string, b: string)
    requires ',' !in a
    ensures SplitCommaTrim(a + [','] + b) == [Trim(a)] + SplitCommaTrim(b)
  {
    SplitAfterPiece(a, ',', b);
    TrimEachCons(a, Split(b, ','));
  }

  /** An item that survives a comma-separated round trip unchanged. */
  predicate IsPlainItem(x: string)
  {
    IsTrimmed(x) && ',' !in x
  }

  lemma SplitCommaTrimSingle(first: string)
    requires IsPlainItem(first)
    ensures SplitCommaTrim(first) == [first]
  {
    TrimOfTrimmed(first);
    SplitNoSeparator(first, ',');
  }

  lemma ConsTail<T>(xs: seq<T>)
    requires |xs| >= 1
    ensures [xs[0]] + xs[1..] == xs
  {
  }

  lemma Regroup(a: string, b: string, c: string, d: string)
    ensures a + (b + c) + d == a + b + (c + d)
  {
  }

  /** Joining a list of at least two parts puts the separator after the first. */
  lemma JoinCons(first: string, tail: seq<string>, sep: string)
    requires |tail| >= 1
    ensures Join([first] + tail, sep) == first + sep + Join(tail, sep)
  {
    assert ([first] + tail)[1..] == tail;
  }

  lemma SplitCommaTrimStep(first: string, tail: seq<string>, pad: string)
    requires |tail| >= 1
    requires AllWhitespace(pad)
    requires IsPlainItem(first)
    requires SplitCommaTrim(Join(tail, [','] + pad)) == tail
    ensures SplitCommaTrim(Join([first] + tail, [','] + pad)) == [first] + tail
  {
    var rest := Join(tail, [','] + pad);
    JoinCons(first, tail, [','] + pad);
    Regroup(first, [','], pad, rest);
    SplitCommaTrimAfterPiece(first, pad + rest);
    SplitCommaTrimIgnoresPadding(pad, rest);
    TrimOfTrimmed(first);
  }

  /** A list of plain items joined with a comma plus whitespace, then split
      and trimmed again, gives back the same items. */
  lemma {:induction false} SplitCommaTrimJoin(items: seq<string>, pad: string)
    requires |items| >= 1
    requires AllWhitespace(pad)
    requires forall i :: 0 <= i < |items| ==> IsPlainItem(items[i])
    ensures SplitCommaTrim(Join(items, [','] + pad)) == items
  {
    if |items| == 1 {
      SplitCommaTrimSingle(items[0]);
    } else {
      var tail := items[1..];
      SplitCommaTrimJoin(tail, pad);
      SplitCommaTrimStep(items[0], tail, pad);
      ConsTail(items);
    }
  }

  /** Plain items joined with ", " (as list inputs show them) split and
      trim back into the same items. */
  lemma {:induction false} SplitCommaTrimCommaSpaceJoin(items: seq<string>)
    requires |items| >= 1
    requires forall i :: 0 <= i < |items| ==> IsPlainItem(items[i])
    ensures SplitCommaTrim(Join(items, ", ")) == items
  {
    SpaceIsAllWhitespace();
    SplitCommaTrimJoin(items, " ");
    CommaSpaceSeparator(items);
  }

  lemma SpaceIsAllWhitespace()
    ensures AllWhitespace(" ")
  {
    SpaceIsWhitespace();
  }

  lemma {:induction false} CommaSpaceSeparator(items: seq<string>)
    requires SplitCommaTrim(Join(items, [','] + " ")) == items
    ensures SplitCommaTrim(Join(items, ", ")) == items
  {
    assert [','] + " " == ", ";
  }

  // --------------------------------------------------------- comparison

  /** The relational operator `<` on strings: lexicographic by character. */
  predicate Less(a: string, b: string)
  {
    |b| > 0 && (|a| == 0 || a[0] < b[0] || (a[0] == b[0] && Less(a[1..], b[1..])))
  }

  predicate LessOrEqual(a: string, b: string)
  {
    a == b || Less(a, b)
  }

  lemma {:induction false} LessIrreflexive(a: string)
    ensures !Less(a, a)
  {
    if |a| > 0 {
      LessIrreflexive(a[1..]);
    }
  }

  /** String order is total: a string that is not below another is at or above it. */
  lemma {:induction false} LessTotal(a: string, b: string)
    ensures !Less(a, b) ==> LessOrEqual(b, a)
  {
    if |a| > 0 && |b| > 0 && a[0] == b[0] {
      LessTotal(a[1..], b[1..]);
      if a[1..] == b[1..] {
        assert a == [a[0]] + a[1..] && b == [b[0]] + b[1..];
      }
    }
  }
}
