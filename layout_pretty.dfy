/**
 * Pretty output (fastsnbt/src/ser/mod.rs with a depth): the exact text of
 * sequences and maps of any length, and the relation between the two
 * modes. Pretty output is compact output with line breaks and indentation
 * inserted and each `:` after a key widened to `: `, for every value,
 * whether or not it serializes.
 */
module PrettyLayout {
  import opened Numerals
  import opened Ser
  import opened Layout

  // ---------------------------------------------------------------------
  // pretty sequences
  // ---------------------------------------------------------------------

  /** The elements' texts at depth `k`, joined by `,` and a line break at depth `k`. */
  function PrettyJoin(elems: seq<Value>, k: nat): string
    decreases |elems|
  {
    if |elems| == 0 then ""
    else if |elems| == 1 then Emit(elems[0], Some(k)).text
    else PrettyJoin(elems[..|elems| - 1], k) + "," + NewlineText(Some(k)) + Emit(elems[|elems| - 1], Some(k)).text
  }

  /** The elements written so far, in pretty mode at depth `k`, when every one of them serializes. */
  lemma {:induction false} PrettyOpened(prefix: string, elems: seq<Value>, k: nat)
    requires |elems| > 0
    requires forall i :: 0 <= i < |elems| ==> Emit(elems[i], Some(k)).outcome == Pass
    ensures OpenedElems(prefix, elems, Some(k))
            == Done("[" + NewlineText(Some(k)) + prefix + NewlineText(Some(k)) + PrettyJoin(elems, k))
    decreases |elems|
  {
    var n := |elems|;
    var nl := NewlineText(Some(k));
    var t := Emit(elems[n - 1], Some(k)).text;
    var open := "[" + nl + prefix + nl;
    if n == 1 {
      assert elems[..0] == [];
      assert ElemStep(false, prefix, elems[0], Some(k)).text == open + t;
      assert "" + (open + t) == open + t;
    } else {
      var init := elems[..n - 1];
      PrettyOpened(prefix, init, k);
      assert ElemStep(true, prefix, elems[n - 1], Some(k)).text == "," + nl + t;
      AppendAssoc(open + PrettyJoin(init, k), "," + nl, t);
      AppendAssoc(open + PrettyJoin(init, k), ",", nl);
      AppendAssoc(open, PrettyJoin(init, k), ",");
      AppendAssoc(open, PrettyJoin(init, k) + ",", nl);
      AppendAssoc(open, PrettyJoin(init, k) + "," + nl, t);
    }
  }

  /**
   * In pretty mode at depth `n` a non-empty sequence is `[`, a line break at
   * depth `n + 1`, the prefix, another line break, the elements at depth
   * `n + 1` each after `,` and a line break, then a line break at depth `n`
   * and `]`.
   */
  lemma PrettyArray(prefix: string, elems: seq<Value>, n: nat)
    requires |elems| > 0
    requires forall i :: 0 <= i < |elems| ==> Emit(elems[i], None).outcome == Pass
    ensures ArrayEmission(prefix, elems, Some(n)) ==
      Done("[" + NewlineText(Some(n + 1)) + prefix + NewlineText(Some(n + 1)) + PrettyJoin(elems, n + 1)
           + NewlineText(Some(n)) + "]")
  {
    forall i | 0 <= i < |elems| ensures Emit(elems[i], Some(n + 1)).outcome == Pass {
      SameOutcomeInBothModes(elems[i], n + 1);
    }
    PrettyOpened(prefix, elems, n + 1);
  }

  // ---------------------------------------------------------------------
  // pretty maps
  // ---------------------------------------------------------------------

  /** `key: value` for each entry at depth `k`, joined by `,` and a line break at depth `k`. */
  function PrettyPairJoin(entries: seq<Entry>, k: nat): string
    decreases |entries|
  {
    if |entries| == 0 then ""
    else
      var e := entries[|entries| - 1];
      var pair := e.key + ": " + Emit(e.value, Some(k)).text;
      if |entries| == 1 then pair else PrettyPairJoin(entries[..|entries| - 1], k) + "," + NewlineText(Some(k)) + pair
  }

  /** The first ordinary entry of a map at depth `n` opens `{` and moves one level deeper. */
  lemma PrettyFirstEntry(e: Entry, n: nat)
    requires SentinelKind(e.key).None? && Emit(e.value, Some(n + 1)).outcome == Pass
    ensures EntryStep(false, false, e, Some(n))
            == Run("{" + NewlineText(Some(n + 1)) + (e.key + ": " + Emit(e.value, Some(n + 1)).text), Pass, true)
  {
    var t := Emit(e.value, Some(n + 1)).text;
    var open := "{" + NewlineText(Some(n + 1));
    assert PushDepth(Some(n)) == Some(n + 1) && Separator(Some(n + 1)) == ": ";
    assert NamedValue(false, e, Some(n)).text == open + e.key + ": " + t;
    AppendAssoc(open, e.key, ": ");
    AppendAssoc(open, e.key + ": ", t);
    assert "" + (open + (e.key + ": " + t)) == open + (e.key + ": " + t);
  }

  /** A later ordinary entry stays at the inner depth, after `,` and a line break. */
  lemma PrettyLaterEntry(e: Entry, k: nat)
    requires SentinelKind(e.key).None? && Emit(e.value, Some(k)).outcome == Pass
    ensures EntryStep(true, true, e, Some(k))
            == Run("," + NewlineText(Some(k)) + (e.key + ": " + Emit(e.value, Some(k)).text), Pass, true)
  {
    var t := Emit(e.value, Some(k)).text;
    assert Separator(Some(k)) == ": ";
    assert NamedValue(true, e, Some(k)).text == "" + e.key + ": " + t;
    assert "" + e.key + ": " + t == e.key + ": " + t;
  }

  /** Ordinary entries in pretty mode at depth `n`: `{`, then the pairs one level deeper. */
  lemma {:induction false} PrettyRun(entries: seq<Entry>, n: nat)
    requires |entries| > 0 && OrdinaryEntries(entries)
    ensures EntriesRun(entries, Some(n)) == Run("{" + NewlineText(Some(n + 1)) + PrettyPairJoin(entries, n + 1), Pass, true)
    decreases |entries|
  {
    var len := |entries|;
    var e := entries[len - 1];
    var nl := NewlineText(Some(n + 1));
    var pair := e.key + ": " + Emit(e.value, Some(n + 1)).text;
    var init := entries[..len - 1];
    SameOutcomeInBothModes(e.value, n + 1);
    if len == 1 {
      assert init == [];
      PrettyFirstEntry(e, n);
      assert EntriesRun(entries, Some(n)).text == "" + ("{" + nl + pair);
    } else {
      assert OrdinaryEntries(init) by {
        assert forall i :: 0 <= i < len - 1 ==> init[i] == entries[i];
      }
      PrettyRun(init, n);
      PrettyLaterEntry(e, n + 1);
      var open := "{" + nl;
      assert EntriesRun(entries, Some(n)).text == (open + PrettyPairJoin(init, n + 1)) + ("," + nl + pair);
      AppendAssoc(open + PrettyPairJoin(init, n + 1), "," + nl, pair);
      AppendAssoc(open + PrettyPairJoin(init, n + 1), ",", nl);
      AppendAssoc(open, PrettyPairJoin(init, n + 1), ",");
      AppendAssoc(open, PrettyPairJoin(init, n + 1) + ",", nl);
      AppendAssoc(open, PrettyPairJoin(init, n + 1) + "," + nl, pair);
    }
  }

  /**
   * In pretty mode at depth `n` a map of ordinary keys is `{`, then
   * `key: value` pairs at depth `n + 1`, each after a line break and all
   * but the first after `,`, then a line break at depth `n` and `}`.
   */
  lemma PrettyMap(entries: seq<Entry>, n: nat)
    requires |entries| > 0 && OrdinaryEntries(entries)
    ensures CompoundEmission(entries, Some(n))
            == Done("{" + NewlineText(Some(n + 1)) + PrettyPairJoin(entries, n + 1) + NewlineText(Some(n)) + "}")
  {
    PrettyRun(entries, n);
    assert PopDepth(PushDepth(Some(n))) == Some(n);
  }

  // ---------------------------------------------------------------------
  // pretty output is compact output, laid out
  // ---------------------------------------------------------------------

  /** A piece of pretty output: text both modes write, a line break with its indentation, or `: ` after a key. */
  datatype Piece = Tok(text: string) | Break(depth: nat) | KeySep

  /** What pretty mode writes for a piece. */
  function PrettyPiece(p: Piece): string {
    match p
    case Tok(t) => t
    case Break(k) => NewlineText(Some(k))
    case KeySep => ": "
  }

  /** What compact mode writes for a piece. */
  function CompactPiece(p: Piece): string {
    match p
    case Tok(t) => t
    case Break(_) => ""
    case KeySep => ":"
  }

  /** The pieces as pretty mode writes them. */
  function Render(ps: seq<Piece>): string
    decreases |ps|
  {
    if |ps| == 0 then "" else PrettyPiece(ps[0]) + Render(ps[1..])
  }

  /** The pieces with every line break dropped and every `: ` narrowed to `:`. */
  function Erase(ps: seq<Piece>): string
    decreases |ps|
  {
    if |ps| == 0 then "" else CompactPiece(ps[0]) + Erase(ps[1..])
  }

  /** Rendering distributes over concatenation. */
  lemma {:induction false} RenderAppend(a: seq<Piece>, b: seq<Piece>)
    ensures Render(a + b) == Render(a) + Render(b)
    decreases |a|
  {
    if |a| == 0 {
      assert a + b == b;
    } else {
      assert (a + b)[1..] == a[1..] + b;
      RenderAppend(a[1..], b);
      AppendAssoc(PrettyPiece(a[0]), Render(a[1..]), Render(b));
    }
  }

  /** Erasing distributes over concatenation. */
  lemma {:induction false} EraseAppend(a: seq<Piece>, b: seq<Piece>)
    ensures Erase(a + b) == Erase(a) + Erase(b)
    decreases |a|
  {
    if |a| == 0 {
      assert a + b == b;
    } else {
      assert (a + b)[1..] == a[1..] + b;
      EraseAppend(a[1..], b);
      AppendAssoc(CompactPiece(a[0]), Erase(a[1..]), Erase(b));
    }
  }

  /** `pretty` is `compact` with line breaks inserted and key separators widened. */
  ghost predicate LaidOut(pretty: string, compact: string) {
    exists ps :: Render(ps) == pretty && Erase(ps) == compact
  }

  /** One piece lays out what it writes in each mode. */
  lemma Single(p: Piece)
    ensures LaidOut(PrettyPiece(p), CompactPiece(p))
  {
    var ps := [p];
    assert ps[1..] == [];
    assert Render(ps) == PrettyPiece(p) + "";
    assert Erase(ps) == CompactPiece(p) + "";
  }

  /** Text written the same way in both modes is laid out as itself. */
  lemma Verbatim(t: string)
    ensures LaidOut(t, t)
  {
    Single(Tok(t));
  }

  /** A pretty `newline` is a line break that compact mode drops. */
  lemma LineBreak(k: nat)
    ensures LaidOut(NewlineText(Some(k)), NewlineText(None))
  {
    Single(Break(k));
    assert CompactPiece(Break(k)) == NewlineText(None);
  }

  /** The pretty `: ` after a key is the compact `:` widened. */
  lemma KeySeparator(k: nat)
    ensures LaidOut(Separator(Some(k)), Separator(None))
  {
    Single(KeySep);
    assert PrettyPiece(KeySep) == Separator(Some(k)) && CompactPiece(KeySep) == Separator(None);
  }

  /** Laid-out texts placed side by side stay laid out. */
  lemma Juxtapose(p1: string, c1: string, p2: string, c2: string)
    requires LaidOut(p1, c1) && LaidOut(p2, c2)
    ensures LaidOut(p1 + p2, c1 + c2)
  {
    var a :| Render(a) == p1 && Erase(a) == c1;
    var b :| Render(b) == p2 && Erase(b) == c2;
    RenderAppend(a, b);
    EraseAppend(a, b);
  }

  /**
   * The pretty text of any value at any depth is its compact text laid
   * out, and both modes agree on the outcome.
   */
  lemma {:induction false} EmitLaidOut(v: Value, k: nat)
    ensures LaidOut(Emit(v, Some(k)).text, Emit(v, None).text)
    ensures Emit(v, Some(k)).outcome == Emit(v, None).outcome
    decreases Size(v), 0
  {
    if v.IsPrimitive() {
      PrimitiveLaidOut(v, k);
    } else {
      match v
      case Bytes(bs) =>
        ByteValuesSize(bs);
        ArrayLaidOut("", ByteValues(bs), k);
      case OptSome(inner) =>
        EmitLaidOut(inner, k);
      case NewtypeStruct(_, inner) =>
        EmitLaidOut(inner, k);
      case Seq(elems) =>
        ArrayLaidOut("", elems, k);
      case Map(entries) =>
        CompoundLaidOut(entries, k);
      case NewtypeVariant(_, _, _) =>
        Verbatim("");
      case TupleVariant(_, _, _) =>
        Verbatim("");
      case StructVariant(_, _, _) =>
        Verbatim("");
    }
  }

  /** A value without nesting is written the same way in both modes. */
  lemma PrimitiveLaidOut(v: Value, k: nat)
    requires v.IsPrimitive()
    ensures Emit(v, Some(k)) == Emit(v, None)
    ensures LaidOut(Emit(v, Some(k)).text, Emit(v, None).text)
  {
    Verbatim(Emit(v, None).text);
  }

  /** A sequence (or a typed array's elements) in pretty mode is its compact text laid out. */
  lemma {:induction false} ArrayLaidOut(prefix: string, elems: seq<Value>, k: nat)
    ensures LaidOut(ArrayEmission(prefix, elems, Some(k)).text, ArrayEmission(prefix, elems, None).text)
    ensures ArrayEmission(prefix, elems, Some(k)).outcome == ArrayEmission(prefix, elems, None).outcome
    decreases SizeOfAll(elems), 3
  {
    if |elems| == 0 {
      Verbatim("[" + prefix + "]");
    } else {
      OpenedLaidOut(prefix, elems, k + 1);
      var body := OpenedElems(prefix, elems, Some(k + 1));
      var flat := OpenedElems(prefix, elems, None);
      if !body.outcome.Fail? {
        assert PopDepth(PushDepth(Some(k))) == Some(k);
        LineBreak(k);
        Juxtapose(body.text, flat.text, NewlineText(Some(k)), NewlineText(None));
        Verbatim("]");
        Juxtapose(body.text + NewlineText(Some(k)), flat.text + NewlineText(None), "]", "]");
      }
    }
  }

  /** The elements written so far, laid out. */
  lemma {:induction false} OpenedLaidOut(prefix: string, elems: seq<Value>, k: nat)
    ensures LaidOut(OpenedElems(prefix, elems, Some(k)).text, OpenedElems(prefix, elems, None).text)
    ensures OpenedElems(prefix, elems, Some(k)).outcome == OpenedElems(prefix, elems, None).outcome
    decreases SizeOfAll(elems), 2
  {
    var n := |elems|;
    if n == 0 {
      Verbatim("");
    } else {
      var init := elems[..n - 1];
      assert SizeOfAll(elems) == SizeOfAll(init) + Size(elems[n - 1]);
      OpenedLaidOut(prefix, init, k);
      var before := OpenedElems(prefix, init, Some(k));
      if !before.outcome.Fail? {
        ElemStepLaidOut(n > 1, prefix, elems[n - 1], k);
        Juxtapose(before.text, OpenedElems(prefix, init, None).text,
                  ElemStep(n > 1, prefix, elems[n - 1], Some(k)).text, ElemStep(n > 1, prefix, elems[n - 1], None).text);
      }
    }
  }

  /** What an element's text is preceded by: `,` or `[` and the prefix, then a line break. */
  lemma ElemLeadLaidOut(later: bool, prefix: string, k: nat)
    ensures LaidOut((if later then "," else "[" + NewlineText(Some(k)) + prefix) + NewlineText(Some(k)),
                    (if later then "," else "[" + NewlineText(None) + prefix) + NewlineText(None))
  {
    var nl := NewlineText(Some(k));
    LineBreak(k);
    if later {
      Verbatim(",");
      Juxtapose(",", ",", nl, "");
    } else {
      Verbatim("[");
      Juxtapose("[", "[", nl, "");
      Verbatim(prefix);
      Juxtapose("[" + nl, "[" + "", prefix, prefix);
      Juxtapose("[" + nl + prefix, "[" + "" + prefix, nl, "");
    }
  }

  /** One element with what precedes it, laid out. */
  lemma {:induction false} ElemStepLaidOut(later: bool, prefix: string, e: Value, k: nat)
    ensures LaidOut(ElemStep(later, prefix, e, Some(k)).text, ElemStep(later, prefix, e, None).text)
    ensures ElemStep(later, prefix, e, Some(k)).outcome == ElemStep(later, prefix, e, None).outcome
    decreases Size(e), 1
  {
    ElemLeadLaidOut(later, prefix, k);
    EmitLaidOut(e, k);
    Juxtapose((if later then "," else "[" + NewlineText(Some(k)) + prefix) + NewlineText(Some(k)),
              (if later then "," else "[" + NewlineText(None) + prefix) + NewlineText(None),
              Emit(e, Some(k)).text, Emit(e, None).text);
  }

  /** A typed array under a sentinel key, laid out. */
  lemma {:induction false} TypedLaidOut(kind: ArrayKind, v: Value, k: nat)
    ensures LaidOut(TypedArrayEmission(kind, v, Some(k)).text, TypedArrayEmission(kind, v, None).text)
    ensures TypedArrayEmission(kind, v, Some(k)).outcome == TypedArrayEmission(kind, v, None).outcome
    decreases Size(v), 4
  {
    if v.Seq? {
      ArrayLaidOut(kind.Prefix(), v.elems, k);
    } else if v.Bytes? {
      ByteValuesSize(v.bytes);
      ArrayLaidOut(kind.Prefix(), ByteValues(v.bytes), k);
    } else {
      assert TypedArrayEmission(kind, v, Some(k)) == Refused == TypedArrayEmission(kind, v, None);
      Verbatim("");
    }
  }

  /** An ordinary entry: the optional `{`, the key, the separator and the value, laid out. */
  lemma {:induction false} NamedLaidOut(isCompound: bool, e: Entry, k: nat)
    ensures LaidOut(NamedValue(isCompound, e, Some(k)).text, NamedValue(isCompound, e, None).text)
    ensures NamedValue(isCompound, e, Some(k)).outcome == NamedValue(isCompound, e, None).outcome
    decreases Size(e.value), 1
  {
    var j := if isCompound then k else k + 1;
    assert (if isCompound then Some(k) else PushDepth(Some(k))) == Some(j);
    var open := if isCompound then "" else "{" + NewlineText(Some(j));
    var flatOpen := if isCompound then "" else "{";
    if isCompound {
      Verbatim("");
    } else {
      Verbatim("{");
      LineBreak(j);
      Juxtapose("{", "{", NewlineText(Some(j)), "");
      assert "{" + "" == flatOpen;
    }
    Verbatim(e.key);
    Juxtapose(open, flatOpen, e.key, e.key);
    KeySeparator(j);
    Juxtapose(open + e.key, flatOpen + e.key, Separator(Some(j)), Separator(None));
    EmitLaidOut(e.value, j);
    Juxtapose(open + e.key + Separator(Some(j)), flatOpen + e.key + Separator(None),
              Emit(e.value, Some(j)).text, Emit(e.value, None).text);
  }

  /** One entry with its leading `,` and line break, laid out; both modes open the braces alike. */
  lemma {:induction false} EntryStepLaidOut(isCompound: bool, later: bool, e: Entry, k: nat)
    ensures LaidOut(EntryStep(isCompound, later, e, Some(k)).text, EntryStep(isCompound, later, e, None).text)
    ensures EntryStep(isCompound, later, e, Some(k)).outcome == EntryStep(isCompound, later, e, None).outcome
    ensures EntryStep(isCompound, later, e, Some(k)).isCompound == EntryStep(isCompound, later, e, None).isCompound
    decreases Size(e.value), 5
  {
    var sep := if later then "," + NewlineText(Some(k)) else "";
    var flatSep := if later then "," else "";
    if later {
      Verbatim(",");
      LineBreak(k);
      Juxtapose(",", ",", NewlineText(Some(k)), "");
      assert "," + "" == flatSep;
    } else {
      Verbatim("");
    }
    assert flatSep == if later then "," + NewlineText(None) else "";
    match SentinelKind(e.key)
    case Some(kind) =>
      TypedLaidOut(kind, e.value, k);
      Juxtapose(sep, flatSep, TypedArrayEmission(kind, e.value, Some(k)).text, TypedArrayEmission(kind, e.value, None).text);
    case None =>
      NamedLaidOut(isCompound, e, k);
      Juxtapose(sep, flatSep, NamedValue(isCompound, e, Some(k)).text, NamedValue(isCompound, e, None).text);
  }

  /** The entries written so far, laid out; both modes open the braces alike. */
  lemma {:induction false} EntriesLaidOut(entries: seq<Entry>, k: nat)
    ensures LaidOut(EntriesRun(entries, Some(k)).text, EntriesRun(entries, None).text)
    ensures EntriesRun(entries, Some(k)).outcome == EntriesRun(entries, None).outcome
    ensures EntriesRun(entries, Some(k)).isCompound == EntriesRun(entries, None).isCompound
    decreases SizeOfEntries(entries), 1
  {
    var n := |entries|;
    if n == 0 {
      Verbatim("");
    } else {
      var init := entries[..n - 1];
      EntriesLaidOut(init, k);
      var before := EntriesRun(init, Some(k));
      var flat := EntriesRun(init, None);
      if !before.outcome.Fail? {
        var j := if before.isCompound then k + 1 else k;
        assert (if before.isCompound then PushDepth(Some(k)) else Some(k)) == Some(j);
        assert (if flat.isCompound then PushDepth(None) else None) == None;
        SizeOfEntriesBound(entries, n - 1);
        EntryStepLaidOut(before.isCompound, n > 1, entries[n - 1], j);
        Juxtapose(before.text, flat.text,
                  EntryStep(before.isCompound, n > 1, entries[n - 1], Some(j)).text,
                  EntryStep(before.isCompound, n > 1, entries[n - 1], None).text);
      }
    }
  }

  /** A map or struct in pretty mode is its compact text laid out. */
  lemma {:induction false} CompoundLaidOut(entries: seq<Entry>, k: nat)
    ensures LaidOut(CompoundEmission(entries, Some(k)).text, CompoundEmission(entries, None).text)
    ensures CompoundEmission(entries, Some(k)).outcome == CompoundEmission(entries, None).outcome
    decreases SizeOfEntries(entries), 2
  {
    EntriesLaidOut(entries, k);
    var run := EntriesRun(entries, Some(k));
    var flat := EntriesRun(entries, None);
    if !run.outcome.Fail? {
      if run.isCompound {
        assert PopDepth(PushDepth(Some(k))) == Some(k);
        LineBreak(k);
        Juxtapose(run.text, flat.text, NewlineText(Some(k)), NewlineText(None));
        Verbatim("}");
        Juxtapose(run.text + NewlineText(Some(k)), flat.text + NewlineText(None), "}", "}");
      } else if |entries| == 0 {
        Verbatim("{}");
      }
    }
  }
}
