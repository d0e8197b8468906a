/**
 The comparable form of an exporter's header list: pairs sorted by name,
 percent-encoded and joined, so that equal lists are equal strings.
 */
module Headers {
  import opened Wrappers
  import opened Text
  import opened LastWins

  datatype Header = Header(name: Bytes, value: Bytes)

  // ------------------------------------------------------------ name order

  /** `strings.Compare(a, b) <= 0`: lexicographic on bytes. */
  predicate AtMost(a: Bytes, b: Bytes) {
    a == [] || (b != [] && (a[0] < b[0] || (a[0] == b[0] && AtMost(a[1..], b[1..]))))
  }

  lemma {:induction false} AtMostTotal(a: Bytes, b: Bytes)
    ensures AtMost(a, b) || AtMost(b, a)
    ensures AtMost(a, b) && AtMost(b, a) ==> a == b
  {
    if a != [] && b != [] && a[0] == b[0] {
      AtMostTotal(a[1..], b[1..]);
      assert a == [a[0]] + a[1..] && b == [b[0]] + b[1..];
    }
  }

  lemma {:induction false} AtMostTransitive(a: Bytes, b: Bytes, c: Bytes)
    requires AtMost(a, b) && AtMost(b, c)
    ensures AtMost(a, c)
  {
    if a != [] && a[0] == b[0] == c[0] {
      AtMostTransitive(a[1..], b[1..], c[1..]);
    }
  }

  /** The texts part at i, and the first has the smaller byte there. */
  predicate PartsBelow(a: Bytes, b: Bytes, i: nat) {
    i < |a| && i < |b| && (forall k :: 0 <= k < i ==> a[k] == b[k]) && a[i] < b[i]
  }

  /** Lexicographic: a prefix, or smaller at the first difference. */
  lemma {:induction false} AtMostIff(a: Bytes, b: Bytes)
    ensures AtMost(a, b) <==> a <= b || exists i: nat :: PartsBelow(a, b, i)
  {
    if a != [] && b != [] {
      if a[0] == b[0] {
        AtMostIff(a[1..], b[1..]);
        AtMostShift(a, b);
      } else if a[0] < b[0] {
        assert PartsBelow(a, b, 0);
      } else {
        assert forall i: nat :: !PartsBelow(a, b, i);
      }
    }
  }

  lemma AtMostShift(a: Bytes, b: Bytes)
    requires a != [] && b != [] && a[0] == b[0]
    ensures a <= b <==> a[1..] <= b[1..]
    ensures (exists i: nat :: PartsBelow(a, b, i)) <==> exists i: nat :: PartsBelow(a[1..], b[1..], i)
  {
    assert a == [a[0]] + a[1..] && b == [b[0]] + b[1..];
    if i: nat :| PartsBelow(a, b, i) {
      assert i > 0 && PartsBelow(a[1..], b[1..], i - 1);
    }
    if i: nat :| PartsBelow(a[1..], b[1..], i) {
      forall k | 0 <= k < i + 1 ensures a[k] == b[k] {
        assert k > 0 ==> a[1..][k - 1] == b[1..][k - 1];
      }
      assert PartsBelow(a, b, i + 1);
    }
  }

  // ----------------------------------------------------------- stable sort

  ghost predicate SortedByName(ps: seq<Header>) {
    forall i, j :: 0 <= i < j < |ps| ==> AtMost(ps[i].name, ps[j].name)
  }

  /** The pairs of one name, in their order. */
  function WithName(ps: seq<Header>, name: Bytes): seq<Header> {
    if ps == [] then []
    else (if ps[0].name == name then [ps[0]] else []) + WithName(ps[1..], name)
  }

  /** qs is ps sorted by name, pairs of equal names left in their order. */
  ghost predicate StableSortOf(qs: seq<Header>, ps: seq<Header>) {
    SortedByName(qs) && forall name :: WithName(qs, name) == WithName(ps, name)
  }

  function Insert(p: Header, qs: seq<Header>): seq<Header> {
    if qs == [] || AtMost(p.name, qs[0].name) then [p] + qs
    else [qs[0]] + Insert(p, qs[1..])
  }

  /** `slices.SortStableFunc` by name; StableSortUnique says no other result is possible. */
  function Sort(ps: seq<Header>): seq<Header> {
    if ps == [] then [] else Insert(ps[0], Sort(ps[1..]))
  }

  lemma {:induction false} InsertKeeps(p: Header, qs: seq<Header>, name: Bytes)
    ensures WithName(Insert(p, qs), name) == WithName([p] + qs, name)
  {
    if !(qs == [] || AtMost(p.name, qs[0].name)) {
      InsertKeeps(p, qs[1..], name);
      var result := Insert(p, qs);
      assert result[0] == qs[0] && result[1..] == Insert(p, qs[1..]);
      assert ([p] + qs)[1..] == qs && ([p] + qs[1..])[1..] == qs[1..];
      AtMostTotal(p.name, qs[0].name);
    }
  }

  lemma {:induction false} InsertMembers(p: Header, qs: seq<Header>)
    ensures multiset(Insert(p, qs)) == multiset{p} + multiset(qs)
  {
    if !(qs == [] || AtMost(p.name, qs[0].name)) {
      InsertMembers(p, qs[1..]);
      assert qs == [qs[0]] + qs[1..];
    }
  }

  lemma SortedCons(p: Header, qs: seq<Header>)
    requires SortedByName(qs) && forall q :: q in qs ==> AtMost(p.name, q.name)
    ensures SortedByName([p] + qs)
  {
    var all := [p] + qs;
    forall i, j | 0 <= i < j < |all| ensures AtMost(all[i].name, all[j].name) {
      if i == 0 {
        assert all[j] in qs;
      }
    }
  }

  lemma {:induction false} InsertSorted(p: Header, qs: seq<Header>)
    requires SortedByName(qs)
    ensures SortedByName(Insert(p, qs))
  {
    if qs == [] {
    } else if AtMost(p.name, qs[0].name) {
      forall q | q in qs ensures AtMost(p.name, q.name) {
        var i :| 0 <= i < |qs| && qs[i] == q;
        if i > 0 {
          AtMostTransitive(p.name, qs[0].name, q.name);
        }
      }
      SortedCons(p, qs);
    } else {
      InsertSorted(p, qs[1..]);
      InsertMembers(p, qs[1..]);
      AtMostTotal(p.name, qs[0].name);
      forall q | q in Insert(p, qs[1..]) ensures AtMost(qs[0].name, q.name) {
        assert q in multiset(Insert(p, qs[1..]));
        assert q == p || q in qs[1..];
      }
      SortedCons(qs[0], Insert(p, qs[1..]));
    }
  }

  lemma {:induction false} SortIsStable(ps: seq<Header>)
    ensures StableSortOf(Sort(ps), ps)
    ensures multiset(Sort(ps)) == multiset(ps)
  {
    if ps != [] {
      SortIsStable(ps[1..]);
      InsertSorted(ps[0], Sort(ps[1..]));
      InsertMembers(ps[0], Sort(ps[1..]));
      assert ps == [ps[0]] + ps[1..];
      forall name ensures WithName(Sort(ps), name) == WithName(ps, name) {
        InsertKeeps(ps[0], Sort(ps[1..]), name);
        assert ([ps[0]] + Sort(ps[1..]))[1..] == Sort(ps[1..]);
      }
    }
  }

  lemma {:induction false} WithNameMember(ps: seq<Header>, p: Header)
    ensures p in ps <==> p in WithName(ps, p.name)
  {
    if ps != [] {
      WithNameMember(ps[1..], p);
    }
  }

  /** Sortedness and stability leave one result: how the library sorts does not matter. */
  lemma {:induction false} StableSortUnique(a: seq<Header>, b: seq<Header>)
    requires SortedByName(a) && SortedByName(b)
    requires forall name :: WithName(a, name) == WithName(b, name)
    ensures a == b
  {
    if a == [] {
      if b != [] {
        WithNameMember(b, b[0]);
      }
    } else {
      WithNameMember(a, a[0]);
      WithNameMember(b, a[0]);
      assert b != [];
      WithNameMember(a, b[0]);
      WithNameMember(b, b[0]);
      FirstNames(a, b);
      var n := a[0].name;
      assert WithName(a, n)[0] == a[0] && WithName(b, n)[0] == b[0];
      forall name ensures WithName(a[1..], name) == WithName(b[1..], name) {
        var k := if name == n then 1 else 0;
        assert WithName(a[1..], name) == WithName(a, name)[k..] && WithName(b[1..], name) == WithName(b, name)[k..];
      }
      StableSortUnique(a[1..], b[1..]);
      assert a == [a[0]] + a[1..] && b == [b[0]] + b[1..];
    }
  }

  lemma FirstNames(a: seq<Header>, b: seq<Header>)
    requires SortedByName(a) && SortedByName(b) && a != [] && b != []
    requires a[0] in b && b[0] in a
    ensures a[0].name == b[0].name
  {
    var i :| 0 <= i < |b| && b[i] == a[0];
    var j :| 0 <= j < |a| && a[j] == b[0];
    AtMostTotal(a[0].name, b[0].name);
    AtMostTotal(a[0].name, a[0].name);
  }

  // ----------------------------------------------------------------- codec

  function EncodePair(p: Header): Bytes {
    Escape(p.name, Query) + ['='] + Escape(p.value, Query)
  }

  function EncodePairs(ps: seq<Header>): (encoded: seq<Bytes>)
    ensures |encoded| == |ps| && forall i :: 0 <= i < |ps| ==> encoded[i] == EncodePair(ps[i])
  {
    if ps == [] then [] else [EncodePair(ps[0])] + EncodePairs(ps[1..])
  }

  function Encode(ps: seq<Header>): Bytes {
    Join(EncodePairs(ps), '&')
  }

  function OrEmpty(s: Option<Bytes>): Bytes {
    if s.Some? then s.value else []
  }

  function DecodePair(s: Bytes): Header {
    var cut := Cut(s, '=');
    Header(OrEmpty(Unescape(cut.before, Query)), OrEmpty(Unescape(cut.after, Query)))
  }

  function DecodePairs(parts: seq<Bytes>): (ps: seq<Header>)
    ensures |ps| == |parts| && forall i :: 0 <= i < |ps| ==> ps[i] == DecodePair(parts[i])
  {
    if parts == [] then [] else [DecodePair(parts[0])] + DecodePairs(parts[1..])
  }

  /** `Headers.Pairs`. */
  function Pairs(h: Bytes): seq<Header> {
    if h == [] then [] else DecodePairs(Split(h, '&'))
  }

  lemma DecodeParts(name: Bytes, value: Bytes, p: Header)
    requires '=' !in name && Unescape(name, Query) == Some(p.name) && Unescape(value, Query) == Some(p.value)
    ensures DecodePair(name + ['='] + value) == p
  {
    CutConcat(name, '=', value);
  }

  lemma QueryAlphabet(s: Bytes)
    ensures '&' !in Escape(s, Query) && '=' !in Escape(s, Query)
  {
    EscapeAlphabet(s, Query);
  }

  lemma DecodeEncodePair(p: Header)
    ensures DecodePair(EncodePair(p)) == p && '&' !in EncodePair(p) && EncodePair(p) != []
  {
    QueryAlphabet(p.name);
    QueryAlphabet(p.value);
    UnescapeEscape(p.name, Query);
    UnescapeEscape(p.value, Query);
    DecodeParts(Escape(p.name, Query), Escape(p.value, Query), p);
  }

  /** The form loses nothing, whatever bytes the names and values hold. */
  lemma PairsEncode(ps: seq<Header>)
    ensures Pairs(Encode(ps)) == ps
  {
    if ps != [] {
      var parts := EncodePairs(ps);
      forall i | 0 <= i < |ps| ensures '&' !in parts[i] && parts[i] != [] && DecodePair(parts[i]) == ps[i] {
        DecodeEncodePair(ps[i]);
      }
      forall p | p in parts ensures '&' !in p {
        var i :| 0 <= i < |parts| && parts[i] == p;
      }
      SplitJoin(parts, '&');
      assert Encode(ps) != [];
    }
  }

  /** `newHeaders`: sort, encode each pair, join. Its value is canonical. */
  method NewHeaders(pairs: seq<Header>) returns (h: Bytes)
    ensures h == Encode(Sort(pairs))
    ensures Pairs(h) == Sort(pairs)
  {
    var sorted := Sort(pairs);
    var encoded: seq<Bytes> := [];
    for i := 0 to |sorted|
      invariant |encoded| == i
      invariant forall j :: 0 <= j < i ==> encoded[j] == EncodePair(sorted[j])
    {
      encoded := encoded + [EncodePair(sorted[i])];
    }
    assert encoded == EncodePairs(sorted);
    PairsEncode(sorted);
    return Join(encoded, '&');
  }

  lemma SameFormIffSameSort(a: seq<Header>, b: seq<Header>)
    ensures Encode(Sort(a)) == Encode(Sort(b)) <==> Sort(a) == Sort(b)
  {
    PairsEncode(Sort(a));
    PairsEncode(Sort(b));
  }

  /** Name by name, the same pairs in the same order. */
  ghost predicate SamePairs(a: seq<Header>, b: seq<Header>) {
    forall name :: WithName(a, name) == WithName(b, name)
  }

  /** `x` and `y` are the stable sorts of `a` and `b`. */
  lemma StableSortsAgree(x: seq<Header>, a: seq<Header>, y: seq<Header>, b: seq<Header>)
    requires StableSortOf(x, a) && StableSortOf(y, b)
    ensures x == y <==> SamePairs(a, b)
  {
    if x == y {
      forall name ensures WithName(a, name) == WithName(b, name) {
        assert WithName(x, name) == WithName(a, name);
      }
    } else if SamePairs(a, b) {
      StableSortUnique(x, y);
    }
  }

  /** Two lists have the same form exactly when they differ at most in how different names are interleaved. */
  lemma SameFormIffSamePairs(a: seq<Header>, b: seq<Header>)
    ensures Encode(Sort(a)) == Encode(Sort(b)) <==> SamePairs(a, b)
  {
    SameFormIffSameSort(a, b);
    SortIsStable(a);
    SortIsStable(b);
    StableSortsAgree(Sort(a), a, Sort(b), b);
  }

  // --------------------------------------------------------------- parsing

  datatype PairFault = NotKeyValue | MalformedEncoding | NotAToken | BadValueCharacter

  /** RFC 9110's token characters. */
  predicate TokenByte(c: Byte) {
    Alphanumeric(c) || c == '!' || '#' <= c <= '\'' || c == '*' || c == '+' || c == '-' || c == '.'
    || c == '^' || c == '_' || c == '`' || c == '|' || c == '~'
  }

  predicate ValidName(name: Bytes) {
    forall c :: c in name ==> TokenByte(c)
  }

  predicate ValidValue(value: Bytes) {
    forall c :: c in value ==> ' ' <= c <= '~' || c == '\t'
  }

  /** One item of the list; Ok(None) is a blank item, which is skipped. */
  function ParseItem(item: Bytes): (r: Result<Option<Header>, PairFault>)
    ensures r.Ok? && r.value.Some? ==>
              var h := r.value.value; h.name != [] && ValidName(h.name) && ValidValue(h.value)
  {
    if TrimSpace(item) == [] then Ok(None)
    else
      var cut := Cut(item, '=');
      var name := Unescape(TrimSpace(cut.before), Path);
      var value := Unescape(TrimSpace(cut.after), Path);
      // A malformed name reads as empty, so it is reported as no name at all.
      if !cut.found || OrEmpty(name) == [] then Err(NotKeyValue)
      else if value.None? then Err(MalformedEncoding)
      else if !ValidName(name.value) then Err(NotAToken)
      else if !ValidValue(value.value) then Err(BadValueCharacter)
      else Ok(Some(Header(name.value, value.value)))
  }

  /** A header name: RFC 9110's token, written out. */
  predicate TokenName(name: Bytes) {
    name != []
    && forall c :: c in name ==> 'a' <= c <= 'z' || 'A' <= c <= 'Z' || '0' <= c <= '9' || c in "!#$%&'*+-.^_`|~"
  }

  /** A header value: visible ASCII, space and tab. */
  predicate Sendable(value: Bytes) {
    forall c :: c in value ==> 0x20 <= c as int <= 0x7e || c as int == 9
  }

  /** A blank item is skipped, and no other. */
  lemma ItemSkippedIff(item: Bytes)
    ensures ParseItem(item) == Ok(None) <==> Blank(item)
    ensures '=' !in item && !Blank(item) ==> ParseItem(item) == Err(NotKeyValue)
  {
    TrimmedAwayIff(item);
  }

  /** What an item with an equals sign comes to, by its two sides. */
  lemma ItemAnswers(before: Bytes, after: Bytes)
    requires '=' !in before
    ensures var r := ParseItem(before + ['='] + after);
            var name, value := Unescape(TrimSpace(before), Path), Unescape(TrimSpace(after), Path);
            var named := name.Some? && name.value != [];
            && (r == Err(NotKeyValue) <==> !named)
            && (r == Err(MalformedEncoding) <==> named && value.None?)
            && (r == Err(NotAToken) <==> named && value.Some? && !TokenName(name.value))
            && (r == Err(BadValueCharacter) <==>
                named && value.Some? && TokenName(name.value) && !Sendable(value.value))
            && (r.Ok? <==> named && value.Some? && TokenName(name.value) && Sendable(value.value))
            && (r.Ok? ==> r.value == Some(Header(name.value, value.value)))
  {
    CutConcat(before, '=', after);
    NotBlank(before, after);
    var name, value := Unescape(TrimSpace(before), Path), Unescape(TrimSpace(after), Path);
    if name.Some? && name.value != [] {
      NameIsToken(name.value);
    }
    if value.Some? {
      ValueIsSendable(value.value);
    }
  }

  lemma NameIsToken(name: Bytes)
    requires name != []
    ensures ValidName(name) <==> TokenName(name)
  {
    forall c: Byte ensures TokenByte(c) <==>
                           'a' <= c <= 'z' || 'A' <= c <= 'Z' || '0' <= c <= '9' || c in "!#$%&'*+-.^_`|~"
    {
    }
  }

  lemma ValueIsSendable(value: Bytes)
    ensures ValidValue(value) <==> Sendable(value)
  {
  }

  lemma NameEscapes(name: Bytes)
    requires TokenName(name)
    ensures '=' !in Escape(name, Path) && Trimmed(Escape(name, Path)) && ',' !in Escape(name, Path)
  {
    EscapeAlphabet(name, Path);
    VisibleTrimmed(Escape(name, Path));
    EscapeLacks(name, '=');
  }

  /** An escaped text has a kept character only where the text has it. */
  lemma {:induction false} EscapeLacks(s: Bytes, c: Byte)
    requires c !in s && c != '%' && !IsHex(c)
    ensures c !in Escape(s, Path)
  {
    if s != [] {
      EscapeLacks(s[1..], c);
      assert s[0] != c && c !in EscapeByte(s[0], Path);
    }
  }

  /** The item is the header, percent-encoded, with any white space around its two sides. */
  ghost predicate Writes(item: Bytes, h: Header) {
    Padded(item, Escape(h.name, Path), Escape(h.value, Path))
  }

  lemma ParsePadded(item: Bytes, left: Bytes, right: Bytes, h: Header)
    requires Padded(item, left, right) && Trimmed(left) && Trimmed(right) && '=' !in left
    requires ',' !in left && ',' !in right
    requires Unescape(left, Path) == Some(h.name) && Unescape(right, Path) == Some(h.value)
    requires TokenName(h.name) && Sendable(h.value)
    ensures ParseItem(item) == Ok(Some(h)) && ',' !in item
  {
    var before, after := PaddedHalves(item, left, right);
    ItemAnswers(before, after);
  }

  lemma ValueEscapes(value: Bytes)
    ensures Trimmed(Escape(value, Path)) && ',' !in Escape(value, Path)
  {
    EscapeAlphabet(value, Path);
    VisibleTrimmed(Escape(value, Path));
  }

  /** An item that states a sendable header parses to it. */
  lemma ParseStated(item: Bytes, h: Header)
    requires Writes(item, h) && TokenName(h.name) && Sendable(h.value)
    ensures ParseItem(item) == Ok(Some(h)) && ',' !in item
  {
    NameEscapes(h.name);
    ValueEscapes(h.value);
    UnescapeEscape(h.name, Path);
    UnescapeEscape(h.value, Path);
    ParsePadded(item, Escape(h.name, Path), Escape(h.value, Path), h);
  }

  /** Header names are the same when they differ only in case. */
  function NameKey(h: Header): Bytes {
    Lower(h.name)
  }

  /** What a list text amounts to, or its first faulty pair. */
  function Parsed(raw: Bytes): Result<seq<Header>, (nat, PairFault)> {
    match Gather(Split(raw, ','), ParseItem)
    case Err(e) => Err(e)
    case Ok(xs) => Ok(Merge(xs, NameKey))
  }

  function HeadersOf(raw: Bytes): Result<Bytes, (nat, PairFault)> {
    match Parsed(raw)
    case Err(e) => Err(e)
    case Ok(ps) => Ok(Encode(Sort(ps)))
  }

  /** `parseHeaders`. */
  method ParseHeaders(raw: Bytes) returns (r: Result<Bytes, (nat, PairFault)>)
    ensures r == HeadersOf(raw)
    ensures r.Ok? ==> Pairs(r.value) == Sort(Parsed(raw).value)
  {
    var collected := Collect(Split(raw, ','), ParseItem, NameKey);
    if collected.Err? {
      return Err(collected.error);
    }
    var h := NewHeaders(collected.value);
    return Ok(h);
  }

  /** A list of items that state sendable headers of different names parses to those headers, sorted. */
  lemma ParseStatedList(items: seq<Bytes>, hs: seq<Header>)
    requires items != [] && |items| == |hs| && Distinct(hs, NameKey)
    requires forall i :: 0 <= i < |hs| ==> Writes(items[i], hs[i]) && TokenName(hs[i].name) && Sendable(hs[i].value)
    ensures Parsed(Join(items, ',')) == Ok(hs)
    ensures HeadersOf(Join(items, ',')) == Ok(Encode(Sort(hs))) && Pairs(Encode(Sort(hs))) == Sort(hs)
  {
    forall i | 0 <= i < |hs| ensures ',' !in items[i] && ParseItem(items[i]) == Ok(Stated(hs)[i]) {
      ParseStated(items[i], hs[i]);
    }
    SplitJoin(items, ',');
    GatherAll(items, ParseItem, Stated(hs));
    MergeDistinct(hs, NameKey);
    PairsEncode(Sort(hs));
  }

  /** Names are one name exactly when they differ at most in the case of their letters. */
  lemma SameNameIff(a: Header, b: Header)
    ensures NameKey(a) == NameKey(b) <==>
            |a.name| == |b.name| && forall i :: 0 <= i < |a.name| ==> SameLetter(a.name[i], b.name[i])
  {
    LowerEqualIff(a.name, b.name);
  }

  // ------------------------------------------------------------- canonicity

  lemma {:induction false} WithNameAbsent(ps: seq<Header>, name: Bytes)
    requires forall p :: p in ps ==> p.name != name
    ensures WithName(ps, name) == []
  {
    if ps != [] {
      assert ps[0] in ps;
      WithNameAbsent(ps[1..], name);
    }
  }

  lemma {:induction false} WithNameSingle(ps: seq<Header>, i: nat)
    requires Distinct(ps, NameKey) && i < |ps|
    ensures WithName(ps, ps[i].name) == [ps[i]]
  {
    if i == 0 {
      forall p | p in ps[1..] ensures p.name != ps[0].name {
        var j :| 1 <= j < |ps| && ps[j] == p;
        assert NameKey(ps[0]) != NameKey(ps[j]);
      }
      WithNameAbsent(ps[1..], ps[0].name);
    } else {
      assert NameKey(ps[0]) != NameKey(ps[i]);
      forall m, n | 0 <= m < n < |ps[1..]| ensures NameKey(ps[1..][m]) != NameKey(ps[1..][n]) {
        assert NameKey(ps[m + 1]) != NameKey(ps[n + 1]);
      }
      WithNameSingle(ps[1..], i - 1);
    }
  }

  lemma SameMembersSameSort(a: seq<Header>, b: seq<Header>)
    requires Distinct(a, NameKey) && Distinct(b, NameKey) && forall p :: p in a <==> p in b
    ensures Sort(a) == Sort(b)
  {
    SortIsStable(a);
    SortIsStable(b);
    forall name ensures WithName(a, name) == WithName(b, name) {
      if p :| p in a && p.name == name {
        var i :| 0 <= i < |a| && a[i] == p;
        assert p in b;
        var j :| 0 <= j < |b| && b[j] == p;
        WithNameSingle(a, i);
        WithNameSingle(b, j);
      } else {
        WithNameAbsent(a, name);
        WithNameAbsent(b, name);
      }
    }
    forall name ensures WithName(Sort(a), name) == WithName(Sort(b), name) {
      assert WithName(a, name) == WithName(b, name);
    }
    StableSortUnique(Sort(a), Sort(b));
  }

  lemma SortMembers(ps: seq<Header>, p: Header)
    ensures p in Sort(ps) <==> p in ps
  {
    SortIsStable(ps);
    assert p in Sort(ps) <==> p in multiset(Sort(ps));
    assert p in ps <==> p in multiset(ps);
  }

  lemma SameMergeForms(xs: seq<Option<Header>>, ys: seq<Option<Header>>)
    ensures Encode(Sort(Merge(xs, NameKey))) == Encode(Sort(Merge(ys, NameKey))) <==>
            forall h :: Winner(xs, NameKey, h) <==> Winner(ys, NameKey, h)
  {
    var a, b := Merge(xs, NameKey), Merge(ys, NameKey);
    MergeExact(xs, NameKey);
    MergeExact(ys, NameKey);
    SameFormIffSameSort(a, b);
    if Sort(a) == Sort(b) {
      forall h ensures Winner(xs, NameKey, h) <==> Winner(ys, NameKey, h) {
        SortMembers(a, h);
        SortMembers(b, h);
      }
    } else if forall h :: Winner(xs, NameKey, h) <==> Winner(ys, NameKey, h) {
      SameMembersSameSort(a, b);
    }
  }

  /**
   The parsed value is canonical: two texts give the same value exactly when they state
   the same headers, counting for each name, case aside, only the last statement of it.
   */
  lemma SameHeadersIffSameWinners(a: Bytes, xs: seq<Option<Header>>, b: Bytes, ys: seq<Option<Header>>)
    requires Gather(Split(a, ','), ParseItem) == Ok(xs) && Gather(Split(b, ','), ParseItem) == Ok(ys)
    ensures HeadersOf(a) == HeadersOf(b) <==> forall h :: Winner(xs, NameKey, h) <==> Winner(ys, NameKey, h)
  {
    SameMergeForms(xs, ys);
  }

  /** Reordering pairs of distinct names changes nothing. */
  lemma ReorderingKeepsHeaders(order: seq<nat>, a: seq<Bytes>, b: seq<Bytes>)
    requires a != [] && Reorders(order, a, b) && forall item :: item in a ==> ',' !in item
    requires HeadersOf(Join(a, ',')).Ok? && KeysDiffer(Gather(Split(Join(a, ','), ','), ParseItem).value, NameKey)
    ensures HeadersOf(Join(b, ',')) == HeadersOf(Join(a, ','))
  {
    forall item | item in b ensures ',' !in item {
      var i :| 0 <= i < |b| && b[i] == item;
      assert a[order[i]] in a;
    }
    SplitJoin(a, ',');
    SplitJoin(b, ',');
    ReorderedGather(order, a, b, ParseItem);
    ReorderedWinners(order, Gather(a, ParseItem).value, Gather(b, ParseItem).value, NameKey);
    SameMergeForms(Gather(a, ParseItem).value, Gather(b, ParseItem).value);
  }

  /** Every name a parsed value carries is a non-empty token, every value sendable, and no name repeats. */
  lemma ParsedHeadersAreSendable(raw: Bytes, h: Header)
    requires HeadersOf(raw).Ok? && h in Pairs(HeadersOf(raw).value)
    ensures h.name != [] && ValidName(h.name) && ValidValue(h.value)
    ensures Distinct(Parsed(raw).value, NameKey)
  {
    var items := Split(raw, ',');
    var xs := Gather(items, ParseItem).value;
    PairsEncode(Sort(Merge(xs, NameKey)));
    SortMembers(Merge(xs, NameKey), h);
    MergeExact(xs, NameKey);
    var i :| Wins(xs, NameKey, i, h);
    assert States(xs, i, h);
    GatherOk(items, ParseItem);
  }

  // -------------------------------------------------------------- redaction

  const REDACTED: Bytes := "<redacted>"

  function Blanked(ps: seq<Header>): (qs: seq<Header>)
    ensures |qs| == |ps| && forall i :: 0 <= i < |ps| ==> qs[i] == Header(ps[i].name, REDACTED)
  {
    seq(|ps|, i requires 0 <= i < |ps| => Header(ps[i].name, REDACTED))
  }

  /** `Headers.Redacted`. */
  method Redacted(h: Bytes) returns (r: Bytes)
    ensures r == Encode(Sort(Blanked(Pairs(h))))
    ensures |Pairs(r)| == |Pairs(h)| && forall p :: p in Pairs(r) ==> p.value == "<redacted>"
  {
    var pairs := Pairs(h);
    for i := 0 to |pairs|
      invariant |pairs| == |Pairs(h)|
      invariant forall j :: 0 <= j < |pairs| ==>
                              pairs[j] == if j < i then Header(Pairs(h)[j].name, REDACTED) else Pairs(h)[j]
    {
      pairs := pairs[i := Header(pairs[i].name, REDACTED)];
    }
    assert pairs == Blanked(Pairs(h));
    r := NewHeaders(pairs);
    RedactedValues(pairs);
  }

  lemma RedactedValues(ps: seq<Header>)
    requires forall i :: 0 <= i < |ps| ==> ps[i].value == REDACTED
    ensures |Sort(ps)| == |ps| && forall p :: p in Sort(ps) ==> p.value == REDACTED
  {
    SortIsStable(ps);
    assert |multiset(Sort(ps))| == |multiset(ps)|;
    forall p | p in Sort(ps) ensures p.value == REDACTED {
      SortMembers(ps, p);
    }
  }

  /** A redacted list shows every name, in order, and nothing of any value. */
  lemma RedactionShowsOnlyNames(a: seq<Header>, b: seq<Header>)
    ensures Pairs(Encode(Sort(Blanked(Sort(a))))) == Blanked(Sort(a))
    ensures Encode(Sort(Blanked(Sort(a)))) == Encode(Sort(Blanked(Sort(b)))) <==>
            SameNames(Sort(a), Sort(b))
  {
    SortBlanked(a);
    SortBlanked(b);
    PairsEncode(Blanked(Sort(a)));
    PairsEncode(Blanked(Sort(b)));
    BlankedAgree(Sort(a), Sort(b));
  }

  predicate SameNames(a: seq<Header>, b: seq<Header>) {
    |a| == |b| && forall i :: 0 <= i < |a| ==> a[i].name == b[i].name
  }

  lemma BlankedAgree(a: seq<Header>, b: seq<Header>)
    ensures Blanked(a) == Blanked(b) <==> SameNames(a, b)
  {
    if Blanked(a) == Blanked(b) {
      forall i | 0 <= i < |a| ensures a[i].name == b[i].name {
        assert Blanked(a)[i] == Blanked(b)[i];
      }
    }
    if SameNames(a, b) {
      assert Blanked(a) == Blanked(b);
    }
  }

  lemma SortBlanked(ps: seq<Header>)
    ensures Sort(Blanked(Sort(ps))) == Blanked(Sort(ps))
  {
    SortIsStable(ps);
    SortIsStable(Blanked(Sort(ps)));
    StableSortUnique(Sort(Blanked(Sort(ps))), Blanked(Sort(ps)));
  }
}
