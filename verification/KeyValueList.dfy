/** The `key=value,key2=value2` form of the attribute variables, parsed and printed. */
module KeyValueList {
  import opened Wrappers
  import opened Text
  import opened LastWins

  datatype KeyValue = KeyValue(key: Bytes, value: Bytes)

  datatype PairFault = NotKeyValue | MalformedEncoding

  function KeyOf(kv: KeyValue): Bytes {
    kv.key
  }

  /** One item; Ok(None) is a blank one. */
  function ParseItem(item: Bytes): Result<Option<KeyValue>, PairFault> {
    if TrimSpace(item) == [] then Ok(None)
    else
      var cut := Cut(item, '=');
      var key, value := TrimSpace(cut.before), Unescape(TrimSpace(cut.after), Path);
      if !cut.found || key == [] then Err(NotKeyValue)
      else if value.None? then Err(MalformedEncoding)
      else Ok(Some(KeyValue(key, value.value)))
  }

  /** A blank item is skipped, and no other. */
  lemma ItemSkippedIff(item: Bytes)
    ensures ParseItem(item) == Ok(None) <==> Blank(item)
    ensures '=' !in item && !Blank(item) ==> ParseItem(item) == Err(NotKeyValue)
  {
    TrimmedAwayIff(item);
  }

  /** What an item with an equals sign comes to, by its two sides. */
  lemma ItemAnswers(before: Bytes, after: Bytes)
    requires '=' !in before
    ensures var r, bad := ParseItem(before + ['='] + after), exists i: nat :: BadEscapeAt(TrimSpace(after), i);
            && (r == Err(NotKeyValue) <==> Blank(before))
            && (r == Err(MalformedEncoding) <==> !Blank(before) && bad)
            && (r.Ok? <==> !Blank(before) && !bad)
            && (r.Ok? ==> && r.value.Some? && r.value.value.key == TrimSpace(before)
                          && Some(r.value.value.value) == Unescape(TrimSpace(after), Path))
  {
    CutConcat(before, '=', after);
    NotBlank(before, after);
    TrimmedAwayIff(before);
    UnescapeFailsIff(TrimSpace(after), Path);
  }

  function Parsed(text: Bytes): Result<seq<KeyValue>, (nat, PairFault)> {
    match Gather(Split(text, ','), ParseItem)
    case Err(e) => Err(e)
    case Ok(xs) => Ok(Merge(xs, KeyOf))
  }

  /** `KeyValueList.UnmarshalText`. */
  method UnmarshalText(text: Bytes) returns (r: Result<seq<KeyValue>, (nat, PairFault)>)
    ensures r == Parsed(text)
  {
    r := Collect(Split(text, ','), ParseItem, KeyOf);
  }

  function PrintPair(kv: KeyValue): Bytes {
    kv.key + ['='] + Escape(kv.value, Path)
  }

  function PrintPairs(l: seq<KeyValue>): (pairs: seq<Bytes>)
    ensures |pairs| == |l| && forall i :: 0 <= i < |l| ==> pairs[i] == PrintPair(l[i])
  {
    seq(|l|, i requires 0 <= i < |l| => PrintPair(l[i]))
  }

  function Printed(l: seq<KeyValue>): Bytes {
    Join(PrintPairs(l), ',')
  }

  /** `KeyValueList.String`. */
  method Print(l: seq<KeyValue>) returns (text: Bytes)
    ensures text == Printed(l)
  {
    var pairs: seq<Bytes> := [];
    for i := 0 to |l|
      invariant |pairs| == i
      invariant forall j :: 0 <= j < i ==> pairs[j] == PrintPair(l[j])
    {
      pairs := pairs + [PrintPair(l[i])];
    }
    assert pairs == PrintPairs(l);
    return Join(pairs, ',');
  }

  // ----------------------------------------------------- what parsing yields

  predicate WellFormedKey(key: Bytes) {
    key != [] && Trimmed(key) && ',' !in key && '=' !in key
  }

  /** What a parsed list is like: distinct, non-empty, trimmed keys that could be keys again. */
  ghost predicate WellFormed(l: seq<KeyValue>) {
    Distinct(l, KeyOf) && forall kv :: kv in l ==> WellFormedKey(kv.key)
  }

  lemma ParsedKey(item: Bytes)
    requires ',' !in item && ParseItem(item).Ok? && ParseItem(item).value.Some?
    ensures WellFormedKey(ParseItem(item).value.value.key)
  {
    var before := Cut(item, '=').before;
    assert '=' !in before && ',' !in before;
    TrimSpaceMembers(before, '=');
    TrimSpaceMembers(before, ',');
    TrimSpaceTrims(before);
  }

  lemma ParsedIsWellFormed(text: Bytes)
    requires Parsed(text).Ok?
    ensures WellFormed(Parsed(text).value)
  {
    var items := Split(text, ',');
    var xs := Gather(items, ParseItem).value;
    MergeExact(xs, KeyOf);
    GatherOk(items, ParseItem);
    forall kv | kv in Merge(xs, KeyOf) ensures WellFormedKey(kv.key) {
      var i :| Wins(xs, KeyOf, i, kv);
      assert States(xs, i, kv) && items[i] in items;
      ParsedKey(items[i]);
    }
  }

  /**
   The parsed list holds, for each key an item states, the last value stated for it,
   and its keys stand in the order they were first stated.
   */
  lemma ParsedIsLastWinsInFirstSeenOrder(text: Bytes, xs: seq<Option<KeyValue>>)
    requires Gather(Split(text, ','), ParseItem) == Ok(xs)
    ensures Parsed(text).Ok?
    ensures forall kv :: kv in Parsed(text).value <==> Winner(xs, KeyOf, kv)
    ensures forall i, j, at, later |
              0 <= i < j < |Parsed(text).value|
              && FirstStates(xs, KeyOf, at, Parsed(text).value[i].key)
              && FirstStates(xs, KeyOf, later, Parsed(text).value[j].key) :: at < later
  {
    MergeExact(xs, KeyOf);
    var l := Merge(xs, KeyOf);
    forall i, j, at, later |
      0 <= i < j < |l| && FirstStates(xs, KeyOf, at, l[i].key) && FirstStates(xs, KeyOf, later, l[j].key)
      ensures at < later
    {
      MergeOrder(xs, KeyOf, i);
      assert FirstStates(xs, KeyOf, at, KeyOf(l[i])) && FirstStates(xs, KeyOf, later, KeyOf(l[j]));
    }
  }

  // -------------------------------------------------------------- round trip

  lemma PathAlphabet(s: Bytes)
    ensures Visible(Escape(s, Path)) && ',' !in Escape(s, Path)
  {
    EscapeAlphabet(s, Path);
  }

  /** An item that states a pair, with any white space around its two sides, parses to it. */
  lemma ParseStated(item: Bytes, kv: KeyValue)
    requires WellFormedKey(kv.key) && Padded(item, kv.key, Escape(kv.value, Path))
    ensures ParseItem(item) == Ok(Some(kv)) && ',' !in item
  {
    PathAlphabet(kv.value);
    VisibleTrimmed(Escape(kv.value, Path));
    var before, after := PaddedHalves(item, kv.key, Escape(kv.value, Path));
    UnescapeEscape(kv.value, Path);
    CutConcat(before, '=', after);
    NotBlank(before, after);
  }

  lemma ParsePrintedPair(kv: KeyValue)
    requires WellFormedKey(kv.key)
    ensures ParseItem(PrintPair(kv)) == Ok(Some(kv)) && ',' !in PrintPair(kv)
  {
    var escaped := Escape(kv.value, Path);
    assert PrintPair(kv) == [] + kv.key + [] + ['='] + ([] + escaped + []);
    assert Pads(PrintPair(kv), kv.key, escaped, [], [], [], []);
    ParseStated(PrintPair(kv), kv);
  }

  lemma ParsePrinted(l: seq<KeyValue>)
    requires WellFormed(l)
    ensures Parsed(Printed(l)) == Ok(l)
  {
    if l == [] {
      var blank: seq<Bytes>, none: seq<Option<KeyValue>> := [[]], [None];
      assert Split([], ',') == blank;
      GatherAll(blank, ParseItem, none);
      assert Merge(none, KeyOf) == Merge(none[..0], KeyOf);
    } else {
      var pairs := PrintPairs(l);
      forall i | 0 <= i < |l| ensures ',' !in pairs[i] && ParseItem(pairs[i]) == Ok(Stated(l)[i]) {
        assert l[i] in l;
        ParsePrintedPair(l[i]);
      }
      SplitJoin(pairs, ',');
      GatherAll(pairs, ParseItem, Stated(l));
      MergeDistinct(l, KeyOf);
    }
  }

  /** Printing a list the parser can produce, and parsing the text, gives the list back. */
  lemma PrintThenParse(text: Bytes)
    requires Parsed(text).Ok?
    ensures Parsed(Printed(Parsed(text).value)) == Parsed(text)
  {
    ParsedIsWellFormed(text);
    ParsePrinted(Parsed(text).value);
  }
}
