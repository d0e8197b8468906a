/** `strings.Fields`, and what it means for a text to contain a white-space delimited token. */
module Fields {
  import opened Text

  /** The first position from i on where white space starts, or the length. */
  function FieldEnd(s: Bytes, i: nat): (end: nat)
    requires i <= |s|
    ensures i <= end <= |s|
    ensures forall k :: i <= k < end ==> SpaceFrom(s, k) == 0
    ensures end < |s| ==> SpaceFrom(s, end) > 0
    decreases |s| - i
  {
    if i == |s| || SpaceFrom(s, i) > 0 then i else FieldEnd(s, i + 1)
  }

  function FieldsFrom(s: Bytes, i: nat): seq<Bytes>
    requires i <= |s|
    decreases |s| - i
  {
    var a := SkipSpace(s, i);
    if a == |s| then [] else [s[a..FieldEnd(s, a)]] + FieldsFrom(s, FieldEnd(s, a))
  }

  function FieldsOf(s: Bytes): seq<Bytes> {
    FieldsFrom(s, 0)
  }

  // -------------------------------------------------------------- reference

  /** A white-space character ends at i, or the text begins there. */
  ghost predicate Begins(s: Bytes, i: nat) {
    i == 0 || SpaceUpTo(s, i) > 0
  }

  /** The token stands at i..j: delimited on both sides, and without white space inside. */
  ghost predicate StandsAt(s: Bytes, token: Bytes, i: nat, j: nat) {
    && i < j <= |s| && s[i..j] == token && Begins(s, i)
    && (forall k :: i <= k < j ==> SpaceFrom(s, k) == 0)
    && (j < |s| ==> SpaceFrom(s, j) > 0)
  }

  ghost predicate HasToken(s: Bytes, token: Bytes) {
    exists i: nat, j: nat :: StandsAt(s, token, i, j)
  }

  lemma {:induction false} SkipSpaceBegins(s: Bytes, i: nat)
    requires i <= |s| && (Begins(s, i) || SpaceFrom(s, i) > 0)
    ensures Begins(s, SkipSpace(s, i))
    decreases |s| - i
  {
    var n := SpaceFrom(s, i);
    if n > 0 {
      SpaceUpToAt(s, i, n);
      SkipSpaceBegins(s, i + n);
    }
  }

  /** Skipping white space never runs past the beginning of a token. */
  lemma {:induction false} SkipSpaceStops(s: Bytes, i: nat, start: nat)
    requires i <= start < |s| && Begins(s, start) && SpaceFrom(s, start) == 0
    ensures SkipSpace(s, i) <= start
    decreases |s| - i
  {
    var n := SpaceFrom(s, i);
    if n > 0 {
      if start < i + n {
        var m := SpaceUpTo(s, start);
        SpacesDisjoint(s, i, n, start - m, m);
      } else {
        SkipSpaceStops(s, i + n, start);
      }
    }
  }

  /** A field that begins before a token ends before it. */
  lemma FieldEndsBefore(s: Bytes, a: nat, start: nat)
    requires a < start < |s| && Begins(s, a) && Begins(s, start)
    ensures FieldEnd(s, a) < start
  {
    var m := SpaceUpTo(s, start);
    if 0 < a && start - m < a {
      var n := SpaceUpTo(s, a);
      SpacesDisjoint(s, a - n, n, start - m, m);
    }
    SpaceFromAt(s, start - m, m);
  }

  lemma SpaceUpToAt(s: Bytes, i: int, n: int)
    requires SpaceAt(s, i, n)
    ensures SpaceUpTo(s, i + n) > 0
  {
  }

  lemma SpaceFromAt(s: Bytes, i: int, n: int)
    requires SpaceAt(s, i, n)
    ensures SpaceFrom(s, i) > 0
  {
  }

  lemma {:induction false} FieldsStand(s: Bytes, i: nat, token: Bytes)
    requires i <= |s| && (Begins(s, i) || SpaceFrom(s, i) > 0)
    requires token in FieldsFrom(s, i)
    ensures HasToken(s, token)
    decreases |s| - i
  {
    var a := SkipSpace(s, i);
    var b := FieldEnd(s, a);
    SkipSpaceBegins(s, i);
    if token == s[a..b] {
      assert StandsAt(s, token, a, b);
    } else {
      FieldsStand(s, b, token);
    }
  }

  lemma {:induction false} StandingIsField(s: Bytes, i: nat, token: Bytes, start: nat, end: nat)
    requires i <= start && StandsAt(s, token, start, end) && (Begins(s, i) || SpaceFrom(s, i) > 0)
    ensures token in FieldsFrom(s, i)
    decreases |s| - i
  {
    SkipSpaceStops(s, i, start);
    SkipSpaceBegins(s, i);
    var a := SkipSpace(s, i);
    var b := FieldEnd(s, a);
    if a == start {
      assert b == end;
    } else {
      FieldEndsBefore(s, a, start);
      StandingIsField(s, b, token, start, end);
    }
  }

  /** The fields of a text are exactly the tokens that stand in it. */
  lemma FieldsAreTokens(s: Bytes, token: Bytes)
    ensures token in FieldsOf(s) <==> HasToken(s, token)
  {
    if token in FieldsOf(s) {
      FieldsStand(s, 0, token);
    }
    if i: nat, j: nat :| StandsAt(s, token, i, j) {
      StandingIsField(s, 0, token, i, j);
    }
  }

  // ------------------------------------------------------------------ blanks

  /** The text stands at i..j, a blank or an end of the whole on either side. */
  ghost predicate BlankAt(s: Bytes, w: Bytes, i: nat, j: nat) {
    i <= j <= |s| && s[i..j] == w && (i == 0 || s[i - 1] == ' ') && (j == |s| || s[j] == ' ')
  }

  /** Each item of a blank-separated list stands in it between blanks. */
  lemma {:induction false} JoinStands(parts: seq<Bytes>, k: nat) returns (i: nat, j: nat)
    requires k < |parts|
    ensures BlankAt(Join(parts, ' '), parts[k], i, j)
  {
    if |parts| == 1 {
      i, j := 0, |parts[0]|;
    } else if k == 0 {
      BlankFirst(parts[0], Join(parts[1..], ' '));
      i, j := 0, |parts[0]|;
    } else {
      i, j := JoinStands(parts[1..], k - 1);
      BlankLater(parts[0], Join(parts[1..], ' '), parts[k], i, j);
      i, j := i + |parts[0]| + 1, j + |parts[0]| + 1;
    }
  }

  lemma BlankFirst(a: Bytes, rest: Bytes)
    ensures BlankAt(a + [' '] + rest, a, 0, |a|)
  {
  }

  lemma BlankLater(a: Bytes, rest: Bytes, w: Bytes, i: nat, j: nat)
    requires BlankAt(rest, w, i, j)
    ensures BlankAt(a + [' '] + rest, w, i + |a| + 1, j + |a| + 1)
  {
    var s, n := a + [' '] + rest, |a| + 1;
    assert s[n..] == rest;
    assert s[i + n..j + n] == rest[i..j];
  }

  /** Not empty, and without white space. */
  predicate Plain(w: Bytes) {
    w != [] && forall k :: 0 <= k < |w| ==> SpaceFrom(w, k) == 0
  }

  /** White space inside a slice is white space where the slice stands, and the reverse. */
  lemma SpaceMoves(s: Bytes, w: Bytes, i: nat, k: nat, n: nat)
    requires i + |w| <= |s| && s[i..i + |w|] == w && k + n <= |w|
    ensures SpaceAt(w, k, n) <==> SpaceAt(s, i + k, n)
  {
    assert forall m :: 0 <= m < |w| ==> w[m] == s[i + m];
  }

  lemma TokenIsPlain(s: Bytes, w: Bytes)
    requires HasToken(s, w)
    ensures Plain(w)
  {
    var i: nat, j: nat :| StandsAt(s, w, i, j);
    forall k | 0 <= k < |w| ensures SpaceFrom(w, k) == 0 {
      var n := SpaceFrom(w, k);
      if n > 0 {
        SpaceMoves(s, w, i, k, n);
        SpaceFromAt(s, i + k, n);
      }
    }
  }

  /** A plain text between blanks is a token. */
  lemma BlankIsToken(s: Bytes, w: Bytes, i: nat, j: nat)
    requires BlankAt(s, w, i, j) && Plain(w)
    ensures HasToken(s, w)
  {
    if i > 0 {
      SpaceUpToAt(s, i - 1, 1);
    }
    if j < |s| {
      SpaceFromAt(s, j, 1);
    }
    forall k | i <= k < j ensures SpaceFrom(s, k) == 0 {
      var n := SpaceFrom(s, k);
      if n > 0 {
        if j < |s| {
          SpacesDisjoint(s, k, n, j, 1);
        }
        SpaceMoves(s, w, i, k - i, n);
        SpaceFromAt(w, k - i, n);
      }
    }
    assert StandsAt(s, w, i, j);
  }
}
