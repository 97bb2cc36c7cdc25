/**
 * What the serializer's output looks like, stated against independent
 * reference definitions: which values it accepts at all, the compact form
 * of sequences, byte arrays and maps, the pretty form of a one-element
 * sequence, compounds made only of typed arrays, and the indentation.
 */
module Layout {
  import opened Numerals
  import opened Ser

  // ---------------------------------------------------------------------
  // which values serialize
  // ---------------------------------------------------------------------

  /**
   * The shapes the serializer accepts: everything except `None`, unit, unit
   * structs and the three enum variants that carry data, looked for through
   * `Some`, newtype structs, sequences and map values. A sentinel key
   * needs a sequence or a byte buffer.
   */
  predicate Serializable(v: Value)
    decreases v, 1
  {
    match v
    case OptNone => false
    case Unit => false
    case UnitStruct(_) => false
    case NewtypeVariant(_, _, _) => false
    case TupleVariant(_, _, _) => false
    case StructVariant(_, _, _) => false
    case OptSome(inner) => Serializable(inner)
    case NewtypeStruct(_, inner) => Serializable(inner)
    case Seq(elems) => AllSerializable(elems)
    case Map(entries) => AllEntries(entries)
    case _ => true
  }

  predicate AllSerializable(elems: seq<Value>)
    decreases elems, 2
  {
    forall i :: 0 <= i < |elems| ==> Serializable(elems[i])
  }

  predicate AllEntries(entries: seq<Entry>)
    decreases entries, 2
  {
    forall i :: 0 <= i < |entries| ==> EntrySerializable(entries[i])
  }

  predicate EntrySerializable(e: Entry)
    decreases e, 0
  {
    match SentinelKind(e.key)
    case Some(_) =>
      (match e.value
       case Seq(elems) => AllSerializable(elems)
       case Bytes(_) => true
       case _ => false)
    case None => Serializable(e.value)
  }

  /** The outcome a reference verdict stands for. */
  function Verdict(ok: bool): Outcome {
    if ok then Pass else Fail(Unsupported)
  }

  /**
   * The serializer succeeds exactly on the serializable values, at every
   * depth, and the only way it fails is the unsupported-shape error.
   */
  lemma {:induction false} EmitOutcome(v: Value, d: Option<nat>)
    ensures Emit(v, d).outcome == Verdict(Serializable(v))
    decreases Size(v), 0
  {
    if v.IsPrimitive() {
      PrimitiveOutcome(v, d);
    } else {
      match v
      case OptSome(inner) =>
        EmitOutcome(inner, d);
      case NewtypeStruct(_, inner) =>
        EmitOutcome(inner, d);
      case Seq(elems) =>
        ArrayOutcome("", elems, d);
      case Bytes(bs) =>
        ByteValuesSize(bs);
        ArrayOutcome("", ByteValues(bs), d);
      case Map(entries) =>
        CompoundOutcome(entries, d);
      case NewtypeVariant(_, _, _) =>
      case TupleVariant(_, _, _) =>
      case StructVariant(_, _, _) =>
    }
  }

  lemma PrimitiveOutcome(v: Value, d: Option<nat>)
    requires v.IsPrimitive()
    ensures Emit(v, d).outcome == Verdict(Serializable(v))
  {
  }

  /** The sequence emitter succeeds exactly when every element is serializable. */
  lemma {:induction false} ArrayOutcome(prefix: string, elems: seq<Value>, d: Option<nat>)
    ensures ArrayEmission(prefix, elems, d).outcome
            == Verdict(AllSerializable(elems))
    decreases SizeOfAll(elems), 2
  {
    if |elems| > 0 {
      OpenedOutcome(prefix, elems, PushDepth(d));
    }
  }

  lemma {:induction false} OpenedOutcome(prefix: string, elems: seq<Value>, inner: Option<nat>)
    ensures OpenedElems(prefix, elems, inner).outcome == Verdict(AllSerializable(elems))
    decreases SizeOfAll(elems), 1
  {
    var n := |elems|;
    if n > 0 {
      var init := elems[..n - 1];
      var last := elems[n - 1];
      assert SizeOfAll(elems) == SizeOfAll(init) + Size(last);
      OpenedOutcome(prefix, init, inner);
      EmitOutcome(last, inner);
      AllSerializableLast(elems);
      OpenedOutcomeLast(prefix, elems, inner);
    }
  }

  /** Whether a non-empty sequence is serializable splits at its last element. */
  lemma AllSerializableLast(elems: seq<Value>)
    requires |elems| > 0
    ensures AllSerializable(elems)
            == (AllSerializable(elems[..|elems| - 1]) && Serializable(elems[|elems| - 1]))
  {
    var init := elems[..|elems| - 1];
    assert forall i :: 0 <= i < |init| ==> init[i] == elems[i];
  }

  /** The outcome of the opened elements is the first failure, else the last element's. */
  lemma OpenedOutcomeLast(prefix: string, elems: seq<Value>, inner: Option<nat>)
    requires |elems| > 0
    ensures var before := OpenedElems(prefix, elems[..|elems| - 1], inner).outcome;
      OpenedElems(prefix, elems, inner).outcome
      == if before.Fail? then before else Emit(elems[|elems| - 1], inner).outcome
  {
  }

  /** A map or struct succeeds exactly when every entry is serializable. */
  lemma CompoundOutcome(entries: seq<Entry>, d: Option<nat>)
    ensures CompoundEmission(entries, d).outcome == Verdict(AllEntries(entries))
    decreases SizeOfEntries(entries), 5
  {
    EntriesOutcome(entries, d);
  }

  lemma {:induction false} EntriesOutcome(entries: seq<Entry>, d: Option<nat>)
    ensures EntriesRun(entries, d).outcome == Verdict(AllEntries(entries))
    decreases SizeOfEntries(entries), 4
  {
    var n := |entries|;
    if n > 0 {
      var init := entries[..n - 1];
      assert forall i :: 0 <= i < n - 1 ==> init[i] == entries[i];
      assert AllEntries(entries) == (AllEntries(init) && EntrySerializable(entries[n - 1]));
      EntriesOutcome(init, d);
      var before := EntriesRun(init, d);
      if !before.outcome.Fail? {
        var cur := if before.isCompound then PushDepth(d) else d;
        SizeOfEntriesBound(entries, n - 1);
        EntryOutcome(before.isCompound, n > 1, entries[n - 1], cur);
      }
    }
  }

  lemma {:induction false} EntryOutcome(isCompound: bool, later: bool, e: Entry, cur: Option<nat>)
    ensures EntryStep(isCompound, later, e, cur).outcome == Verdict(EntrySerializable(e))
    decreases Size(e.value), 3
  {
    match SentinelKind(e.key)
    case Some(kind) =>
      TypedOutcome(kind, e.value, cur);
    case None =>
      var inner := if isCompound then cur else PushDepth(cur);
      assert NamedValue(isCompound, e, cur).outcome == Emit(e.value, inner).outcome;
      EmitOutcome(e.value, inner);
  }

  lemma {:induction false} TypedOutcome(kind: ArrayKind, v: Value, cur: Option<nat>)
    ensures TypedArrayEmission(kind, v, cur).outcome
            == Verdict(match v
                       case Seq(elems) => AllSerializable(elems)
                       case Bytes(_) => true
                       case _ => false)
    decreases Size(v), 2
  {
    match v {
      case Seq(elems) =>
        ArrayOutcome(kind.Prefix(), elems, cur);
      case Bytes(bs) =>
        ByteValuesSize(bs);
        ArrayOutcome(kind.Prefix(), ByteValues(bs), cur);
      case _ =>
    }
  }

  /**
   * `Some` and newtype structs write their inner value unchanged, and a
   * unit variant writes its variant name as a quoted string.
   */
  lemma WrappersTransparent(v: Value, name: string, variant: string, d: Option<nat>)
    ensures Emit(OptSome(v), d) == Emit(v, d)
    ensures Emit(NewtypeStruct(name, v), d) == Emit(v, d)
    ensures Emit(UnitVariant(name, variant), d) == Emit(Str(variant), d)
  {
  }

  /** Compact and pretty output agree on whether a value can be written. */
  lemma SameOutcomeInBothModes(v: Value, n: nat)
    ensures Emit(v, None).outcome == Emit(v, Some(n)).outcome
  {
    EmitOutcome(v, None);
    EmitOutcome(v, Some(n));
  }

  // ---------------------------------------------------------------------
  // compact sequences and byte arrays
  // ---------------------------------------------------------------------

  /** The elements' compact texts joined by `,`. */
  function CompactJoin(elems: seq<Value>): string
    decreases |elems|
  {
    if |elems| == 0 then ""
    else if |elems| == 1 then Emit(elems[0], None).text
    else CompactJoin(elems[..|elems| - 1]) + "," + Emit(elems[|elems| - 1], None).text
  }

  lemma {:induction false} CompactOpened(prefix: string, elems: seq<Value>)
    requires |elems| > 0
    requires forall i :: 0 <= i < |elems| ==> Emit(elems[i], None).outcome == Pass
    ensures OpenedElems(prefix, elems, None) == Done("[" + prefix + CompactJoin(elems))
    decreases |elems|
  {
    var n := |elems|;
    var t := Emit(elems[n - 1], None).text;
    var open := "[" + prefix;
    assert NewlineText(None) == "";
    if n == 1 {
      assert elems[..0] == [];
      assert ElemStep(false, prefix, elems[0], None).text == open + t;
      assert "" + (open + t) == open + t;
    } else {
      var init := elems[..n - 1];
      CompactOpened(prefix, init);
      assert ElemStep(true, prefix, elems[n - 1], None).text == "," + t;
      AppendAssoc(open + CompactJoin(init), ",", t);
      AppendAssoc(open, CompactJoin(init), ",");
      AppendAssoc(open, CompactJoin(init) + ",", t);
    }
  }

  /**
   * In compact mode a sequence is `[`, the prefix, the elements joined by
   * `,`, and `]`; an empty one is `[` + prefix + `]`.
   */
  lemma CompactArray(prefix: string, elems: seq<Value>)
    requires forall i :: 0 <= i < |elems| ==> Emit(elems[i], None).outcome == Pass
    ensures ArrayEmission(prefix, elems, None) == Done("[" + prefix + CompactJoin(elems) + "]")
  {
    if |elems| > 0 {
      CompactOpened(prefix, elems);
    } else {
      assert "[" + prefix + "" == "[" + prefix;
    }
  }

  /** The bytes as the element emitter writes them, `u8` each, joined by `,`. */
  function ByteJoin(bs: seq<u8>): string
    decreases |bs|
  {
    if |bs| == 0 then ""
    else if |bs| == 1 then Itoa(bs[0] as int) + "b"
    else ByteJoin(bs[..|bs| - 1]) + "," + Itoa(bs[|bs| - 1] as int) + "b"
  }

  lemma {:induction false} ByteValuesJoin(bs: seq<u8>)
    ensures CompactJoin(ByteValues(bs)) == ByteJoin(bs)
    decreases |bs|
  {
    var n := |bs|;
    if n > 1 {
      assert ByteValues(bs)[..n - 1] == ByteValues(bs[..n - 1]);
      ByteValuesJoin(bs[..n - 1]);
    }
  }

  /** `serialize_bytes` in compact mode: `[`, then `Nb` per byte joined by `,`, then `]`. */
  lemma CompactBytes(bs: seq<u8>)
    ensures Emit(Bytes(bs), None) == Done("[" + ByteJoin(bs) + "]")
  {
    var vs := ByteValues(bs);
    BytesPass(bs, None);
    ByteValuesJoin(bs);
    CompactArray("", vs);
    assert "[" + "" == "[";
    BytesEmission(bs, None);
  }

  /** Every byte is written successfully, whatever the depth. */
  lemma BytesPass(bs: seq<u8>, d: Option<nat>)
    ensures forall i :: 0 <= i < |ByteValues(bs)| ==> Emit(ByteValues(bs)[i], d).outcome == Pass
  {
    var vs := ByteValues(bs);
    forall i | 0 <= i < |vs| ensures Emit(vs[i], d).outcome == Pass {
      assert vs[i] == U8(bs[i]);
    }
  }

  /** `serialize_bytes` is the sequence emitter over the bytes as `u8` values. */
  lemma BytesEmission(bs: seq<u8>, d: Option<nat>)
    ensures Emit(Bytes(bs), d) == ArrayEmission("", ByteValues(bs), d)
  {
  }

  // ---------------------------------------------------------------------
  // pretty sequences
  // ---------------------------------------------------------------------

  /**
   * In pretty mode the first element is preceded by two line breaks at the
   * inner depth, one before the prefix and one before the element, and the
   * closing `]` goes on a new line at the original depth.
   */
  lemma PrettySingleton(prefix: string, e: Value, n: nat)
    requires Emit(e, Some(n + 1)).outcome == Pass
    ensures ArrayEmission(prefix, [e], Some(n)) ==
      Done("[" + NewlineText(Some(n + 1)) + prefix + NewlineText(Some(n + 1)) + Emit(e, Some(n + 1)).text
           + NewlineText(Some(n)) + "]")
  {
    var inner := Some(n + 1);
    var nl := NewlineText(inner);
    var t := Emit(e, inner).text;
    var step := ElemStep(false, prefix, e, inner);
    assert PushDepth(Some(n)) == inner && PopDepth(inner) == Some(n);
    assert step == Emission("[" + nl + prefix + nl + t, Pass);
    assert [e][..0] == [] && OpenedElems(prefix, [], inner) == Done("");
    assert OpenedElems(prefix, [e], inner) == Emission("" + step.text, Pass);
    assert "" + step.text == step.text;
  }

  /** An empty sequence is `[` + prefix + `]` at every depth: no line break and no depth change. */
  lemma EmptyArray(prefix: string, d: Option<nat>)
    ensures ArrayEmission(prefix, [], d) == Done("[" + prefix + "]")
  {
  }

  // ---------------------------------------------------------------------
  // compact maps
  // ---------------------------------------------------------------------

  /** `key:value` for each entry at compact depth, joined by `,`. */
  function PairJoin(entries: seq<Entry>): string
    decreases |entries|
  {
    if |entries| == 0 then ""
    else
      var e := entries[|entries| - 1];
      var pair := e.key + ":" + Emit(e.value, None).text;
      if |entries| == 1 then pair else PairJoin(entries[..|entries| - 1]) + "," + pair
  }

  /** Every key is an ordinary name and every value is written successfully. */
  predicate OrdinaryEntries(entries: seq<Entry>) {
    forall i :: 0 <= i < |entries| ==>
      SentinelKind(entries[i].key).None? && Emit(entries[i].value, None).outcome == Pass
  }

  /** One ordinary entry in compact mode: its separator, `{` if first, then `key:value`. */
  lemma CompactNamedStep(isCompound: bool, later: bool, e: Entry)
    requires SentinelKind(e.key).None? && Emit(e.value, None).outcome == Pass
    ensures EntryStep(isCompound, later, e, None)
            == Run((if later then "," else "") + ((if isCompound then "" else "{") + (e.key + ":" + Emit(e.value, None).text)),
                   Pass, true)
  {
    var t := Emit(e.value, None).text;
    var open := if isCompound then "" else "{";
    assert NewlineText(None) == "" && Separator(None) == ":";
    assert NamedValue(isCompound, e, None).text == open + e.key + ":" + t;
    AppendAssoc(open, e.key, ":");
    AppendAssoc(open, e.key + ":", t);
  }

  lemma {:induction false} CompactRun(entries: seq<Entry>)
    requires |entries| > 0 && OrdinaryEntries(entries)
    ensures EntriesRun(entries, None) == Run("{" + PairJoin(entries), Pass, true)
    decreases |entries|
  {
    var n := |entries|;
    var e := entries[n - 1];
    var pair := e.key + ":" + Emit(e.value, None).text;
    var init := entries[..n - 1];
    if n == 1 {
      assert init == [];
      CompactNamedStep(false, false, e);
      assert EntriesRun(entries, None).text == "" + ("" + ("{" + pair));
    } else {
      assert OrdinaryEntries(init) by {
        assert forall i :: 0 <= i < n - 1 ==> init[i] == entries[i];
      }
      CompactRun(init);
      CompactNamedStep(true, true, e);
      assert EntriesRun(entries, None).text == ("{" + PairJoin(init)) + ("," + ("" + pair));
      assert "" + pair == pair;
      AppendAssoc("{" + PairJoin(init), ",", pair);
      AppendAssoc("{", PairJoin(init), ",");
      AppendAssoc("{", PairJoin(init) + ",", pair);
    }
  }

  /**
   * In compact mode a map of ordinary keys is `{`, then `key:value` pairs
   * joined by `,`, then `}`: the brace is opened once, by the first key.
   */
  lemma CompactMap(entries: seq<Entry>)
    requires |entries| > 0 && OrdinaryEntries(entries)
    ensures CompoundEmission(entries, None) == Done("{" + PairJoin(entries) + "}")
  {
    CompactRun(entries);
    assert NewlineText(PopDepth(PushDepth(None))) == "";
    assert "{" + PairJoin(entries) + "" == "{" + PairJoin(entries);
  }

  /** An empty map or struct is `{}` at every depth. */
  lemma EmptyMap(d: Option<nat>)
    ensures Emit(Map([]), d) == Done("{}")
  {
  }

  /** The run of a one-entry compound with an ordinary key at depth `n`: `{`, a newline, the name, `: ` and the value. */
  lemma SingleEntryRun(e: Entry, n: nat)
    requires SentinelKind(e.key).None? && Emit(e.value, Some(n + 1)).outcome == Pass
    ensures EntriesRun([e], Some(n))
      == Run("{" + NewlineText(Some(n + 1)) + e.key + ": " + Emit(e.value, Some(n + 1)).text, Pass, true)
  {
    var entries := [e];
    assert entries[..0] == [] && EntriesRun([], Some(n)) == Run("", Pass, false);
    assert PushDepth(Some(n)) == Some(n + 1) && Separator(Some(n + 1)) == ": ";
    var named := NamedValue(false, e, Some(n));
    assert named.text == "{" + NewlineText(Some(n + 1)) + e.key + ": " + Emit(e.value, Some(n + 1)).text;
    assert "" + named.text == named.text;
  }

  /**
   * In pretty mode a one-field struct opens `{`, goes one level deeper for
   * the name and `: `, and closes with a newline at its own depth and `}`.
   */
  lemma PrettySingleEntry(k: string, v: Value, n: nat)
    requires SentinelKind(k).None? && Emit(v, Some(n + 1)).outcome == Pass
    ensures Emit(Map([Entry(k, v)]), Some(n)) ==
      Done("{" + NewlineText(Some(n + 1)) + k + ": " + Emit(v, Some(n + 1)).text + NewlineText(Some(n)) + "}")
  {
    var entries := [Entry(k, v)];
    SingleEntryRun(entries[0], n);
    ClosedCompound(entries, Some(n), "{" + NewlineText(Some(n + 1)) + k + ": " + Emit(v, Some(n + 1)).text);
    assert PopDepth(PushDepth(Some(n))) == Some(n);
  }

  /** A compound whose run opened `{` and did not fail is closed by a newline at its own depth and `}`. */
  lemma ClosedCompound(entries: seq<Entry>, d: Option<nat>, t: string)
    requires EntriesRun(entries, d) == Run(t, Pass, true)
    ensures Emit(Map(entries), d) == Done(t + NewlineText(PopDepth(PushDepth(d))) + "}")
  {
  }

  // ---------------------------------------------------------------------
  // compounds made only of typed arrays
  // ---------------------------------------------------------------------

  /** Every key is a sentinel and every typed array is written successfully. */
  predicate SentinelEntries(entries: seq<Entry>, d: Option<nat>) {
    forall i :: 0 <= i < |entries| ==>
      SentinelKind(entries[i].key).Some?
      && TypedArrayEmission(SentinelKind(entries[i].key).value, entries[i].value, d).outcome == Pass
  }

  /** The typed arrays' texts joined by `,` and a newline at depth `d`. */
  function TypedJoin(entries: seq<Entry>, d: Option<nat>): string
    requires SentinelEntries(entries, d)
    decreases |entries|
  {
    if |entries| == 0 then ""
    else
      var e := entries[|entries| - 1];
      var t := TypedArrayEmission(SentinelKind(e.key).value, e.value, d).text;
      if |entries| == 1 then t
      else
        assert SentinelEntries(entries[..|entries| - 1], d) by {
          assert forall i :: 0 <= i < |entries| - 1 ==> entries[..|entries| - 1][i] == entries[i];
        }
        TypedJoin(entries[..|entries| - 1], d) + "," + NewlineText(d) + t
  }

  lemma {:induction false} SentinelRun(entries: seq<Entry>, d: Option<nat>)
    requires SentinelEntries(entries, d)
    ensures EntriesRun(entries, d) == Run(TypedJoin(entries, d), Pass, false)
    decreases |entries|
  {
    var n := |entries|;
    if n > 0 {
      var e := entries[n - 1];
      var t := TypedArrayEmission(SentinelKind(e.key).value, e.value, d).text;
      var init := entries[..n - 1];
      assert SentinelEntries(init, d) by {
        assert forall i :: 0 <= i < n - 1 ==> init[i] == entries[i];
      }
      SentinelRun(init, d);
      if n == 1 {
        assert "" + ("" + t) == t;
      } else {
        AppendAssoc(TypedJoin(init, d), "," + NewlineText(d), t);
        AppendAssoc(TypedJoin(init, d), ",", NewlineText(d));
      }
    }
  }

  /**
   * A compound whose keys are all sentinels writes no braces at all: only
   * the typed arrays, separated by `,` and a newline at the compound's
   * own depth, which never moves.
   */
  lemma SentinelOnlyNoBraces(entries: seq<Entry>, d: Option<nat>)
    requires |entries| > 0 && SentinelEntries(entries, d)
    ensures CompoundEmission(entries, d) == Done(TypedJoin(entries, d))
  {
    SentinelRun(entries, d);
  }

  // ---------------------------------------------------------------------
  // indentation and depth
  // ---------------------------------------------------------------------

  /** `newline` at depth `n` writes a line break and exactly `4 * n` spaces. */
  lemma {:induction false} IndentationIsSpaces(n: nat)
    ensures |Indentation(n)| == 4 * n
    ensures forall i :: 0 <= i < |Indentation(n)| ==> Indentation(n)[i] == ' '
    decreases n
  {
    if n > 0 {
      IndentationIsSpaces(n - 1);
    }
  }

  /** `newline` writes nothing in compact mode and a line break then spaces in pretty mode. */
  lemma NewlineShape(d: Option<nat>)
    ensures d.None? ==> NewlineText(d) == ""
    ensures d.Some? ==> |NewlineText(d)| == 1 + 4 * d.value && NewlineText(d)[0] == '\n'
    ensures d.Some? ==> forall i :: 1 <= i < |NewlineText(d)| ==> NewlineText(d)[i] == ' '
  {
    if d.Some? {
      IndentationIsSpaces(d.value);
    }
  }

  /**
   * Compact mode stays compact; popping at depth 0 stays at 0; a push
   * followed by a pop gives back the depth.
   */
  lemma DepthMoves(d: Option<nat>)
    ensures PushDepth(None) == None && PopDepth(None) == None
    ensures PopDepth(Some(0)) == Some(0)
    ensures PopDepth(PushDepth(d)) == d
    ensures d.Some? ==> PushDepth(d) == Some(d.value + 1)
  {
  }
}
