/**
 Go strings as byte sequences, and the library operations the parsers and printers
 share: splitting, cutting, trimming and percent-encoding.
 */
module Text {
  import opened Wrappers

  /** A byte, written as the character with its code. */
  type Byte = c: char | c as int < 256 witness 'a'

  type Bytes = seq<Byte>

  // ------------------------------------------------------------- splitting

  /** The first position of c, or the length. */
  function IndexOf(s: Bytes, c: Byte): (i: nat)
    ensures i <= |s|
    ensures i < |s| ==> s[i] == c
    ensures forall j :: 0 <= j < i ==> s[j] != c
  {
    if s == [] || s[0] == c then 0 else 1 + IndexOf(s[1..], c)
  }

  function Split(s: Bytes, sep: Byte): (parts: seq<Bytes>)
    ensures parts != []
    ensures forall p :: p in parts ==> sep !in p
    decreases |s|
  {
    var i := IndexOf(s, sep);
    if i == |s| then [s] else [s[..i]] + Split(s[i + 1..], sep)
  }

  function Join(parts: seq<Bytes>, sep: Byte): Bytes {
    if parts == [] then []
    else if |parts| == 1 then parts[0]
    else parts[0] + [sep] + Join(parts[1..], sep)
  }

  lemma IndexOfConcat(a: Bytes, c: Byte, b: Bytes)
    requires c !in a
    ensures IndexOf(a + [c] + b, c) == |a|
  {
    var s := a + [c] + b;
    assert s[|a|] == c;
    assert forall j :: 0 <= j < |a| ==> s[j] == a[j];
  }

  /** Joining what a text was split into gives the text back. */
  lemma {:induction false} JoinSplit(s: Bytes, sep: Byte)
    ensures Join(Split(s, sep), sep) == s
    decreases |s|
  {
    var n := IndexOf(s, sep);
    if n < |s| {
      var rest := s[n + 1..];
      JoinSplit(rest, sep);
      JoinCons(s[..n], Split(rest, sep), sep);
      assert s == s[..n] + [sep] + rest;
    }
  }

  lemma JoinCons(first: Bytes, parts: seq<Bytes>, sep: Byte)
    requires parts != []
    ensures Join([first] + parts, sep) == first + [sep] + Join(parts, sep)
  {
    assert ([first] + parts)[1..] == parts;
  }

  lemma {:induction false} SplitJoin(parts: seq<Bytes>, sep: Byte)
    requires parts != [] && forall p :: p in parts ==> sep !in p
    ensures Split(Join(parts, sep), sep) == parts
  {
    var s := Join(parts, sep);
    if |parts| > 1 {
      IndexOfConcat(parts[0], sep, Join(parts[1..], sep));
      assert s[..|parts[0]|] == parts[0] && s[|parts[0]| + 1..] == Join(parts[1..], sep);
      SplitJoin(parts[1..], sep);
    } else {
      assert s == parts[0] && sep !in parts[0];
    }
  }

  datatype Halves = Halves(before: Bytes, after: Bytes, found: bool)

  /** `strings.Cut` at the first separator. */
  function Cut(s: Bytes, sep: Byte): Halves {
    var i := IndexOf(s, sep);
    if i == |s| then Halves(s, [], false) else Halves(s[..i], s[i + 1..], true)
  }

  lemma CutConcat(a: Bytes, sep: Byte, b: Bytes)
    requires sep !in a
    ensures Cut(a + [sep] + b, sep) == Halves(a, b, true)
  {
    IndexOfConcat(a, sep, b);
    var s := a + [sep] + b;
    assert s[..|a|] == a && s[|a| + 1..] == b;
  }

  // -------------------------------------------------------------- trimming

  /** The n bytes from i on are the UTF-8 form of a character Unicode calls white space. */
  predicate SpaceAt(s: Bytes, i: int, n: int) {
    && 0 <= i && 1 <= n <= 3 && i + n <= |s|
    && if n == 1 then s[i] == ' ' || '\U{09}' <= s[i] <= '\U{0D}'
       else if n == 2 then s[i] == '\U{C2}' && (s[i + 1] == '\U{85}' || s[i + 1] == '\U{A0}')
       else SpaceOf3(s[i], s[i + 1], s[i + 2])
  }

  predicate SpaceOf3(a: Byte, b: Byte, c: Byte) {
    || (a == '\U{E1}' && b == '\U{9A}' && c == '\U{80}')
    || (a == '\U{E2}' && b == '\U{80}' && '\U{80}' <= c <= '\U{8A}')
    || (a == '\U{E2}' && b == '\U{80}' && (c == '\U{A8}' || c == '\U{A9}' || c == '\U{AF}'))
    || (a == '\U{E2}' && b == '\U{81}' && c == '\U{9F}')
    || (a == '\U{E3}' && b == '\U{80}' && c == '\U{80}')
  }

  /** How many bytes of white space start at i: one character's, or none. */
  function SpaceFrom(s: Bytes, i: int): (n: nat)
    ensures n > 0 ==> SpaceAt(s, i, n)
  {
    if SpaceAt(s, i, 1) then 1 else if SpaceAt(s, i, 2) then 2 else if SpaceAt(s, i, 3) then 3 else 0
  }

  /** How many bytes of white space end before j. */
  function SpaceUpTo(s: Bytes, j: int): (n: nat)
    ensures n > 0 ==> SpaceAt(s, j - n, n)
  {
    if SpaceAt(s, j - 1, 1) then 1 else if SpaceAt(s, j - 2, 2) then 2 else if SpaceAt(s, j - 3, 3) then 3 else 0
  }

  /** The first position from i on without white space. */
  function SkipSpace(s: Bytes, i: nat): (start: nat)
    requires i <= |s|
    ensures i <= start <= |s| && SpaceFrom(s, start) == 0
    decreases |s| - i
  {
    if SpaceFrom(s, i) == 0 then i else SkipSpace(s, i + SpaceFrom(s, i))
  }

  /** The last position up to j, not before lo, that no white space ends at. */
  function SkipSpaceBack(s: Bytes, lo: nat, j: nat): (end: nat)
    requires lo <= j <= |s|
    ensures lo <= end <= j && (SpaceUpTo(s, end) == 0 || end - SpaceUpTo(s, end) < lo)
    decreases j
  {
    var n := SpaceUpTo(s, j);
    if n == 0 || j - n < lo then j else SkipSpaceBack(s, lo, j - n)
  }

  function TrimSpace(s: Bytes): Bytes {
    var lo := SkipSpace(s, 0);
    s[lo..SkipSpaceBack(s, lo, |s|)]
  }

  predicate Trimmed(s: Bytes) {
    SpaceFrom(s, 0) == 0 && SpaceUpTo(s, |s|) == 0
  }

  lemma TrimmedUnchanged(s: Bytes)
    requires Trimmed(s)
    ensures TrimSpace(s) == s
  {
  }

  lemma SliceSpaceFrom(s: Bytes, lo: nat, hi: nat)
    requires lo <= hi <= |s| && SpaceFrom(s, lo) == 0
    ensures SpaceFrom(s[lo..hi], 0) == 0
  {
    var t := s[lo..hi];
    forall n | SpaceAt(t, 0, n) ensures SpaceAt(s, lo, n) {
    }
  }

  lemma SliceSpaceUpTo(s: Bytes, lo: nat, hi: nat)
    requires lo <= hi <= |s| && (SpaceUpTo(s, hi) == 0 || hi - SpaceUpTo(s, hi) < lo)
    ensures SpaceUpTo(s[lo..hi], hi - lo) == 0
  {
    var t := s[lo..hi];
    assert forall i, n :: SpaceAt(t, i, n) ==> SpaceAt(s, lo + i, n);
  }

  /** The result has no white space at either end, and trimming it again changes nothing. */
  lemma TrimSpaceTrims(s: Bytes)
    ensures Trimmed(TrimSpace(s)) && TrimSpace(TrimSpace(s)) == TrimSpace(s)
  {
    var lo := SkipSpace(s, 0);
    var hi := SkipSpaceBack(s, lo, |s|);
    SliceSpaceFrom(s, lo, hi);
    SliceSpaceUpTo(s, lo, hi);
    TrimmedUnchanged(s[lo..hi]);
  }

  /** The bytes from i up to j are white space, one character after another. */
  ghost predicate Spaces(s: Bytes, i: nat, j: nat)
    requires i <= j <= |s|
    decreases j - i
  {
    i == j || exists n :: SpaceAt(s, i, n) && i + n <= j && Spaces(s, i + n, j)
  }

  lemma {:induction false} SpacesExtend(s: Bytes, i: nat, j: nat, n: int)
    requires i <= j <= |s| && Spaces(s, i, j) && SpaceAt(s, j, n)
    ensures Spaces(s, i, j + n)
    decreases j - i
  {
    if i == j {
      assert Spaces(s, j + n, j + n);
    } else {
      var m :| SpaceAt(s, i, m) && i + m <= j && Spaces(s, i + m, j);
      SpacesExtend(s, i + m, j, n);
    }
  }

  lemma {:induction false} SkippedIsSpace(s: Bytes, i: nat)
    requires i <= |s|
    ensures Spaces(s, i, SkipSpace(s, i))
    decreases |s| - i
  {
    if SpaceFrom(s, i) > 0 {
      SkippedIsSpace(s, i + SpaceFrom(s, i));
    }
  }

  lemma {:induction false} SkippedBackIsSpace(s: Bytes, lo: nat, j: nat)
    requires lo <= j <= |s|
    ensures Spaces(s, SkipSpaceBack(s, lo, j), j)
    decreases j
  {
    var n := SpaceUpTo(s, j);
    if n > 0 && j - n >= lo {
      SkippedBackIsSpace(s, lo, j - n);
      SpacesExtend(s, SkipSpaceBack(s, lo, j - n), j - n, n);
    }
  }

  /** What trimming takes off either end is white space and nothing else. */
  lemma TrimSpaceDropsSpace(s: Bytes) returns (lo: nat, hi: nat)
    ensures lo <= hi <= |s| && TrimSpace(s) == s[lo..hi]
    ensures Spaces(s, 0, lo) && Spaces(s, hi, |s|)
  {
    lo := SkipSpace(s, 0);
    hi := SkipSpaceBack(s, lo, |s|);
    SkippedIsSpace(s, 0);
    SkippedBackIsSpace(s, lo, |s|);
  }

  lemma TrimSpaceMembers(s: Bytes, c: Byte)
    requires c !in s
    ensures c !in TrimSpace(s)
  {
  }

  /** Visible ASCII is never white space, nor part of it. */
  predicate Visible(s: Bytes) {
    forall i :: 0 <= i < |s| ==> '!' <= s[i] <= '~'
  }

  lemma VisibleTrimmed(s: Bytes)
    requires Visible(s)
    ensures Trimmed(s) && TrimSpace(s) == s
  {
    TrimmedUnchanged(s);
  }

  // ---------------------------------------------------------------- padding

  /** White space and nothing else. */
  ghost predicate Blank(s: Bytes) {
    Spaces(s, 0, |s|)
  }

  lemma SpaceFromIs(s: Bytes, i: int, n: int)
    requires SpaceAt(s, i, n)
    ensures SpaceFrom(s, i) == n && SpaceUpTo(s, i + n) == n
  {
  }

  lemma {:induction false} SkipOver(s: Bytes, i: nat, j: nat)
    requires i <= j <= |s| && Spaces(s, i, j)
    ensures SkipSpace(s, i) == SkipSpace(s, j)
    decreases j - i
  {
    if i < j {
      var n :| SpaceAt(s, i, n) && i + n <= j && Spaces(s, i + n, j);
      SpaceFromIs(s, i, n);
      SkipOver(s, i + n, j);
    }
  }

  /** The last character of a stretch of white space, and the stretch before it. */
  lemma {:induction false} SpacesLast(s: Bytes, i: nat, j: nat) returns (m: nat)
    requires i < j <= |s| && Spaces(s, i, j)
    ensures i <= m < j && Spaces(s, i, m) && SpaceAt(s, m, j - m)
    decreases j - i
  {
    var n :| SpaceAt(s, i, n) && i + n <= j && Spaces(s, i + n, j);
    if i + n == j {
      m := i;
    } else {
      m := SpacesLast(s, i + n, j);
    }
  }

  lemma {:induction false} SkipBackOver(s: Bytes, lo: nat, i: nat, j: nat)
    requires lo <= i <= j <= |s| && Spaces(s, i, j)
    ensures SkipSpaceBack(s, lo, j) == SkipSpaceBack(s, lo, i)
    decreases j - i
  {
    if i < j {
      var m := SpacesLast(s, i, j);
      SkipBackOne(s, lo, m, j);
      SkipBackOver(s, lo, i, m);
    }
  }

  lemma SkipBackOne(s: Bytes, lo: nat, m: nat, j: nat)
    requires lo <= m <= j <= |s| && SpaceAt(s, m, j - m)
    ensures SkipSpaceBack(s, lo, j) == SkipSpaceBack(s, lo, m)
  {
    SpaceFromIs(s, m, j - m);
  }

  lemma {:induction false} SpacesMove(a: Bytes, s: Bytes, k: nat, i: nat)
    requires i <= |a| && k + |a| <= |s| && s[k..k + |a|] == a && Spaces(a, i, |a|)
    ensures Spaces(s, k + i, k + |a|)
    decreases |a| - i
  {
    if i < |a| {
      var n :| SpaceAt(a, i, n) && i + n <= |a| && Spaces(a, i + n, |a|);
      assert forall m :: 0 <= m < |a| ==> a[m] == s[k + m];
      assert SpaceAt(s, k + i, n);
      SpacesMove(a, s, k, i + n);
    }
  }

  /** White-space characters never overlap: none starts with a byte another continues with. */
  lemma SpacesDisjoint(s: Bytes, i: int, n: int, j: int, m: int)
    requires SpaceAt(s, i, n) && SpaceAt(s, j, m)
    ensures (i == j && n == m) || i + n <= j || j + m <= i
  {
  }

  /** White space before a text that starts with none ends where the text starts. */
  lemma SkipStops(s: Bytes, lo: nat, hi: nat)
    requires lo < hi <= |s| && Spaces(s, hi, |s|) && SpaceFrom(s[lo..hi], 0) == 0
    ensures SkipSpace(s, lo) == lo
  {
    var n := SpaceFrom(s, lo);
    assert s[lo..hi][0] == s[lo];
    if n > 0 && hi < |s| {
      var m :| SpaceAt(s, hi, m);
      SpacesDisjoint(s, lo, n, hi, m);
    }
  }

  lemma SkipBackStops(s: Bytes, lo: nat, hi: nat)
    requires lo < hi <= |s| && SpaceUpTo(s[lo..hi], hi - lo) == 0
    ensures SkipSpaceBack(s, lo, hi) == hi
  {
  }

  lemma TrimBetween(s: Bytes, lo: nat, hi: nat)
    requires lo < hi <= |s| && Spaces(s, 0, lo) && Spaces(s, hi, |s|) && Trimmed(s[lo..hi])
    ensures TrimSpace(s) == s[lo..hi]
  {
    StartsAt(s, lo, hi);
    EndsAt(s, lo, hi);
  }

  lemma StartsAt(s: Bytes, lo: nat, hi: nat)
    requires lo < hi <= |s| && Spaces(s, 0, lo) && Spaces(s, hi, |s|) && SpaceFrom(s[lo..hi], 0) == 0
    ensures SkipSpace(s, 0) == lo
  {
    SkipOver(s, 0, lo);
    SkipStops(s, lo, hi);
  }

  lemma EndsAt(s: Bytes, lo: nat, hi: nat)
    requires lo < hi <= |s| && Spaces(s, hi, |s|) && SpaceUpTo(s[lo..hi], hi - lo) == 0
    ensures SkipSpaceBack(s, lo, |s|) == hi
  {
    SkipBackOver(s, lo, hi, |s|);
    SkipBackStops(s, lo, hi);
  }

  lemma TrimBlank(s: Bytes)
    requires Blank(s)
    ensures TrimSpace(s) == []
  {
    SkipOver(s, 0, |s|);
  }

  /** Trimming takes off white space put around a trimmed text, and only that. */
  lemma TrimPadded(a: Bytes, text: Bytes, b: Bytes)
    requires Blank(a) && Trimmed(text) && Blank(b)
    ensures TrimSpace(a + text + b) == text
  {
    var s, lo, hi := a + text + b, |a|, |a| + |text|;
    assert s[0..lo] == a && s[lo..hi] == text && s[hi..hi + |b|] == b;
    SpacesMove(a, s, 0, 0);
    SpacesMove(b, s, hi, 0);
    if text == [] {
      SpacesJoin(s, 0, lo, |s|);
      TrimBlank(s);
    } else {
      TrimBetween(s, lo, hi);
    }
  }

  /** Visible characters are no part of white space. */
  lemma {:induction false} SpacesHide(s: Bytes, i: nat, j: nat, k: nat)
    requires i <= k < j <= |s| && Spaces(s, i, j)
    ensures !('!' <= s[k] <= '~')
    decreases j - i
  {
    var n :| SpaceAt(s, i, n) && i + n <= j && Spaces(s, i + n, j);
    if i + n <= k {
      SpacesHide(s, i + n, j, k);
    }
  }

  /** A text trims to nothing exactly when it is blank. */
  lemma TrimmedAwayIff(s: Bytes)
    ensures TrimSpace(s) == [] <==> Blank(s)
  {
    if Blank(s) {
      TrimBlank(s);
    }
    if TrimSpace(s) == [] {
      var lo, hi := TrimSpaceDropsSpace(s);
      SpacesJoin(s, 0, lo, |s|);
    }
  }

  lemma {:induction false} SpacesJoin(s: Bytes, i: nat, j: nat, k: nat)
    requires i <= j <= k <= |s| && Spaces(s, i, j) && Spaces(s, j, k)
    ensures Spaces(s, i, k)
    decreases j - i
  {
    if i < j {
      var n :| SpaceAt(s, i, n) && i + n <= j && Spaces(s, i + n, j);
      SpacesJoin(s, i + n, j, k);
    }
  }

  /** An item that states a pair: white space around either side of an equals sign. */
  ghost predicate Pads(item: Bytes, left: Bytes, right: Bytes, a: Bytes, b: Bytes, c: Bytes, d: Bytes) {
    item == a + left + b + ['='] + (c + right + d) && Blank(a) && Blank(b) && Blank(c) && Blank(d)
  }

  ghost predicate Padded(item: Bytes, left: Bytes, right: Bytes) {
    exists a, b, c, d :: Pads(item, left, right, a, b, c, d)
  }

  lemma BlankLacks(s: Bytes, c: Byte)
    requires Blank(s) && '!' <= c <= '~'
    ensures c !in s
  {
    if k :| 0 <= k < |s| && s[k] == c {
      SpacesHide(s, 0, |s|, k);
    }
  }

  /** A padded item's halves trim to its two sides, and it has a comma only where they do. */
  lemma PaddedHalves(item: Bytes, left: Bytes, right: Bytes) returns (before: Bytes, after: Bytes)
    requires Padded(item, left, right) && Trimmed(left) && Trimmed(right) && '=' !in left
    ensures item == before + ['='] + after && '=' !in before
    ensures TrimSpace(before) == left && TrimSpace(after) == right
    ensures ',' !in left && ',' !in right ==> ',' !in item
  {
    var a, b, c, d :| Pads(item, left, right, a, b, c, d);
    before, after := a + left + b, c + right + d;
    TrimPadded(a, left, b);
    TrimPadded(c, right, d);
    forall s | s in [a, b, c, d] ensures '=' !in s && ',' !in s {
      BlankLacks(s, '=');
      BlankLacks(s, ',');
    }
    assert a in [a, b, c, d] && b in [a, b, c, d] && c in [a, b, c, d] && d in [a, b, c, d];
  }

  /** What has an equals sign is not blank. */
  lemma NotBlank(before: Bytes, after: Bytes)
    ensures TrimSpace(before + ['='] + after) != []
  {
    var s := before + ['='] + after;
    TrimmedAwayIff(s);
    assert s[|before|] == '=';
    if Blank(s) {
      SpacesHide(s, 0, |s|, |before|);
    }
  }

  // ----------------------------------------------------------------- Unicode

  /** The characters Unicode gives the White_Space property. */
  predicate WhiteSpace(code: int) {
    || 0x09 <= code <= 0x0D || code == 0x20 || code == 0x85 || code == 0xA0 || code == 0x1680
    || 0x2000 <= code <= 0x200A || code == 0x2028 || code == 0x2029 || code == 0x202F || code == 0x205F
    || code == 0x3000
  }

  /** Section 3 of RFC 3629, for codes of up to three bytes. */
  function Utf8(code: int): Bytes
    requires 0 <= code < 0x10000
  {
    if code < 0x80 then [code as char]
    else if code < 0x800 then [(0xC0 + code / 64) as char, (0x80 + code % 64) as char]
    else [(0xE0 + code / 4096) as char, (0x80 + code / 64 % 64) as char, (0x80 + code % 64) as char]
  }

  /** The code whose UTF-8 form those bytes would be. */
  function Decoded(s: Bytes): int
    requires 1 <= |s| <= 3
  {
    if |s| == 1 then s[0] as int
    else if |s| == 2 then (s[0] as int - 0xC0) * 64 + (s[1] as int - 0x80)
    else (s[0] as int - 0xE0) * 4096 + (s[1] as int - 0x80) * 64 + (s[2] as int - 0x80)
  }

  /** A white-space character's bytes are the UTF-8 form of one Unicode calls so. */
  lemma SpaceIsUnicode(s: Bytes)
    requires 1 <= |s| <= 3 && SpaceAt(s, 0, |s|)
    ensures WhiteSpace(Decoded(s)) && Utf8(Decoded(s)) == s
  {
    if |s| == 2 {
      TwoBytes(s[0] as int - 0xC0, s[1] as int - 0x80);
    } else if |s| == 3 {
      ThreeBytes(s[0] as int - 0xE0, s[1] as int - 0x80, s[2] as int - 0x80);
    }
  }

  lemma TwoBytes(a: int, b: int)
    requires 0 <= b < 64
    ensures (a * 64 + b) / 64 == a && (a * 64 + b) % 64 == b
  {
  }

  lemma ThreeBytes(a: int, b: int, c: int)
    requires 0 <= b < 64 && 0 <= c < 64
    ensures var code := a * 4096 + b * 64 + c; code / 4096 == a && code / 64 % 64 == b && code % 64 == c
  {
    TwoBytes(a * 64 + b, c);
    TwoBytes(a, b);
  }

  /** And every character Unicode calls white space is taken for it. */
  lemma UnicodeIsSpace(code: int)
    requires 0 <= code < 0x10000 && WhiteSpace(code)
    ensures SpaceAt(Utf8(code), 0, |Utf8(code)|)
  {
    if 0x2000 <= code <= 0x200A {
      assert code / 4096 == 2 && code / 64 == 128 && code % 64 == code - 0x2000;
    }
  }

  // ------------------------------------------------------ percent-encoding

  predicate IsHex(c: Byte) {
    '0' <= c <= '9' || 'a' <= c <= 'f' || 'A' <= c <= 'F'
  }

  function Unhex(c: Byte): (n: int)
    ensures 0 <= n < 16
  {
    if '0' <= c <= '9' then c as int - '0' as int
    else if 'a' <= c <= 'f' then c as int - 'a' as int + 10
    else if 'A' <= c <= 'F' then c as int - 'A' as int + 10
    else 0
  }

  function Hex(n: int): (c: Byte)
    requires 0 <= n < 16
    ensures IsHex(c) && Unhex(c) == n && c < 'a'
  {
    if n < 10 then (n + '0' as int) as char else (n - 10 + 'A' as int) as char
  }

  function Percent(c: Byte): Bytes {
    ['%', Hex(c as int / 16), Hex(c as int % 16)]
  }

  /** The two forms of `net/url`: a path segment, and a query component with '+' for space. */
  datatype Form = Path | Query

  predicate Alphanumeric(c: Byte) {
    'a' <= c <= 'z' || 'A' <= c <= 'Z' || '0' <= c <= '9'
  }

  predicate Kept(c: Byte, form: Form) {
    Alphanumeric(c) || c == '-' || c == '_' || c == '.' || c == '~'
    || (form.Path? && (c == '$' || c == '&' || c == '+' || c == ':' || c == '=' || c == '@'))
  }

  function EscapeByte(c: Byte, form: Form): Bytes {
    if form.Query? && c == ' ' then ['+'] else if Kept(c, form) then [c] else Percent(c)
  }

  /** `url.PathEscape` and `url.QueryEscape`. */
  function Escape(s: Bytes, form: Form): Bytes {
    if s == [] then [] else EscapeByte(s[0], form) + Escape(s[1..], form)
  }

  /** `url.PathUnescape` and `url.QueryUnescape`; None is a malformed escape. */
  function Unescape(s: Bytes, form: Form): Option<Bytes>
    decreases |s|
  {
    if s == [] then Some([])
    else if s[0] != '%' then Prepend(if form.Query? && s[0] == '+' then ' ' else s[0], Unescape(s[1..], form))
    else if |s| >= 3 && IsHex(s[1]) && IsHex(s[2]) then
      Prepend((16 * Unhex(s[1]) + Unhex(s[2])) as char, Unescape(s[3..], form))
    else None
  }

  function Prepend(c: Byte, rest: Option<Bytes>): Option<Bytes> {
    match rest
    case None => None
    case Some(s) => Some([c] + s)
  }

  lemma UnescapePercent(c: Byte, rest: Bytes, form: Form)
    ensures Unescape(Percent(c) + rest, form) == Prepend(c, Unescape(rest, form))
  {
    var s := Percent(c) + rest;
    assert s[0] == '%' && s[1] == Hex(c as int / 16) && s[2] == Hex(c as int % 16) && s[3..] == rest;
    assert 16 * (c as int / 16) + c as int % 16 == c as int;
  }

  lemma UnescapeByte(c: Byte, rest: Bytes, form: Form)
    ensures Unescape(EscapeByte(c, form) + rest, form) == Prepend(c, Unescape(rest, form))
  {
    var head := EscapeByte(c, form);
    if |head| == 1 {
      var s := head + rest;
      assert s[0] == head[0] && s[1..] == rest;
    } else {
      UnescapePercent(c, rest, form);
    }
  }

  /** Decoding returns what was encoded. */
  lemma {:induction false} UnescapeEscape(s: Bytes, form: Form)
    ensures Unescape(Escape(s, form), form) == Some(s)
  {
    if s != [] {
      UnescapeEscape(s[1..], form);
      UnescapeByte(s[0], Escape(s[1..], form), form);
      assert [s[0]] + s[1..] == s;
    }
  }

  lemma EscapeByteAlphabet(b: Byte, form: Form)
    ensures Visible(EscapeByte(b, form))
    ensures forall c :: c in EscapeByte(b, form) ==> Kept(c, form) || c == '%' || (form.Query? && c == '+')
  {
  }

  /** What an encoding can contain: visible ASCII, and of it only the escapes and what is kept. */
  lemma {:induction false} EscapeAlphabet(s: Bytes, form: Form)
    ensures Visible(Escape(s, form))
    ensures forall c :: c in Escape(s, form) ==> Kept(c, form) || c == '%' || (form.Query? && c == '+')
  {
    if s != [] {
      EscapeAlphabet(s[1..], form);
      EscapeByteAlphabet(s[0], form);
    }
  }

  /** What the two forms leave as it is. */
  lemma KeptIs(c: Byte)
    ensures EscapeByte(c, Path) == [c] <==>
            'a' <= c <= 'z' || 'A' <= c <= 'Z' || '0' <= c <= '9' || c in "-_.~$&+:=@"
    ensures EscapeByte(c, Query) == [c] <==> 'a' <= c <= 'z' || 'A' <= c <= 'Z' || '0' <= c <= '9' || c in "-_.~"
    ensures EscapeByte(' ', Query) == "+"
  {
  }

  /** A hexadecimal digit in either case stands for its place in the row of digits. */
  lemma HexDigits(n: int)
    requires 0 <= n < 16
    ensures IsHex("0123456789abcdef"[n]) && Unhex("0123456789abcdef"[n]) == n
    ensures IsHex("0123456789ABCDEF"[n]) && Unhex("0123456789ABCDEF"[n]) == n
  {
  }

  /** The percent sign at i starts no escape. */
  predicate BadEscapeAt(s: Bytes, i: nat) {
    i < |s| && s[i] == '%' && !(i + 2 < |s| && IsHex(s[i + 1]) && IsHex(s[i + 2]))
  }

  lemma BadEscapeMoves(s: Bytes, n: nat)
    requires n <= |s| && forall i: nat :: i < n ==> !BadEscapeAt(s, i)
    ensures (exists i: nat :: BadEscapeAt(s, i)) <==> exists i: nat :: BadEscapeAt(s[n..], i)
  {
    forall i: nat ensures BadEscapeAt(s[n..], i) <==> BadEscapeAt(s, i + n) {
    }
    if i: nat :| BadEscapeAt(s, i) {
      assert BadEscapeAt(s[n..], i - n);
    }
  }

  /** Decoding fails exactly when some percent sign is not followed by two hexadecimal digits. */
  lemma {:induction false} UnescapeFailsIff(s: Bytes, form: Form)
    ensures Unescape(s, form).None? <==> exists i: nat :: BadEscapeAt(s, i)
    decreases |s|
  {
    if s == [] {
    } else if s[0] != '%' {
      UnescapeFailsIff(s[1..], form);
      BadEscapeMoves(s, 1);
    } else if |s| >= 3 && IsHex(s[1]) && IsHex(s[2]) {
      UnescapeFailsIff(s[3..], form);
      assert forall i: nat :: i < 3 ==> !BadEscapeAt(s, i);
      BadEscapeMoves(s, 3);
    } else {
      assert BadEscapeAt(s, 0);
    }
  }

  /** A text without percent signs decodes to itself, a plus sign aside in a query. */
  lemma {:induction false} UnescapePlain(s: Bytes, form: Form)
    requires '%' !in s && (form.Query? ==> '+' !in s)
    ensures Unescape(s, form) == Some(s)
  {
    if s != [] {
      UnescapePlain(s[1..], form);
      assert [s[0]] + s[1..] == s;
    }
  }

  // ----------------------------------------------------------------- case

  /** The same byte, or a letter in its two cases. */
  predicate SameLetter(a: Byte, b: Byte) {
    a == b || ('A' <= a <= 'Z' && b as int == a as int + 32) || ('A' <= b <= 'Z' && a as int == b as int + 32)
  }

  /** Lower-casing identifies exactly the texts that differ in the case of their letters. */
  lemma LowerEqualIff(a: Bytes, b: Bytes)
    ensures Lower(a) == Lower(b) <==> |a| == |b| && forall i :: 0 <= i < |a| ==> SameLetter(a[i], b[i])
  {
    forall i | 0 <= i < |a| && i < |b| ensures LowerByte(a[i]) == LowerByte(b[i]) <==> SameLetter(a[i], b[i]) {
    }
    if Lower(a) == Lower(b) {
      assert |Lower(a)| == |Lower(b)|;
      forall i | 0 <= i < |a| ensures SameLetter(a[i], b[i]) {
        assert Lower(a)[i] == Lower(b)[i];
      }
    }
    if |a| == |b| && forall i :: 0 <= i < |a| ==> SameLetter(a[i], b[i]) {
      assert Lower(a) == Lower(b);
    }
  }

  /** What is in lower case stays so. */
  lemma LowerUnchanged(s: Bytes)
    requires forall c :: c in s ==> !('A' <= c <= 'Z')
    ensures Lower(s) == s
  {
    forall i | 0 <= i < |s| ensures Lower(s)[i] == s[i] {
      assert s[i] in s;
    }
  }

  function LowerByte(c: Byte): Byte {
    if 'A' <= c <= 'Z' then (c as int + 32) as char else c
  }

  /** `strings.ToLower` on ASCII. */
  function Lower(s: Bytes): Bytes {
    seq(|s|, i requires 0 <= i < |s| => LowerByte(s[i]))
  }
}
