/**
 * The Go `Concatenate` and `Clone` of SIPHeaderList as they are written,
 * beside the corrected definitions in module HeaderLists.
 *
 * `Concatenate` pushes the iteration cursor `e` (a `*list.Element` of the
 * other list) rather than the value it holds, `e.Value`. Such a slot is
 * neither a header object nor a string, so the type switch in `String`
 * and `EncodeBody` falls through to the assertion `e.Value.(string)`,
 * which panics. When the other list is the receiving list itself, the
 * cursor walks a list that grows by one node per turn and never reaches
 * the end. `Clone` copies the header name and none of the elements.
 */
module HeaderListsAsWritten {
  import opened Wrappers
  import opened Text
  import opened HeaderLists

  /** One slot of the Go list: a stored value, or another list's node pushed in place of its value. */
  datatype Cell<H> = Value(item: Item<H>) | ElementNode(node: Cell<H>)

  /** The run-time failure of the assertion `e.Value.(string)`. */
  datatype Panic = FailedStringAssertion

  /** The Go list with its slots as stored. */
  datatype RawList<H> = RawList(name: string, cells: seq<Cell<H>>)

  /** The slots of a list that holds only values. */
  function Lift<H>(l: SipHeaderList<H>): (raw: RawList<H>)
  {
    RawList(l.name, seq(|l.items|, i requires 0 <= i < |l.items| => Value(l.items[i])))
  }

  predicate AllValues<H>(cells: seq<Cell<H>>)
  {
    forall i :: 0 <= i < |cells| ==> cells[i].Value?
  }

  /**
   * `Concatenate` as written, for an `shl` that is a different list from
   * `l`: each node of `shl` is pushed onto the back of `l`, the node itself
   * rather than its value; a nil `shl` changes nothing. When `shl` is `l`
   * itself the Go loop does not return at all; that case is `AliasedAfter`.
   */
  function ConcatenateAsWritten<H>(l: RawList<H>, shl: Option<RawList<H>>): (r: RawList<H>)
    ensures shl.None? ==> r == l
    ensures shl.Some? ==> r.name == l.name
    ensures shl.Some? ==> |r.cells| == |l.cells| + |shl.value.cells|
    ensures shl.Some? ==> r.cells[..|l.cells|] == l.cells
    ensures shl.Some? ==> forall i :: 0 <= i < |shl.value.cells| ==>
              r.cells[|l.cells| + i] == ElementNode(shl.value.cells[i])
  {
    match shl
    case None => l
    case Some(other) =>
      l.(cells := l.cells + seq(|other.cells|, i requires 0 <= i < |other.cells| => ElementNode(other.cells[i])))
  }

  /**
   * The type switch of `EncodeBody` on one slot: a header gives its value,
   * a string itself; a pushed node fails the string assertion.
   */
  function BodyAsWritten<H>(c: Cell<H>, r: Renderer<H>): (res: Result<string, Panic>)
    ensures res.Ok? <==> c.Value?
    ensures res.Ok? ==> res.value == Body(c.item, r)
  {
    match c
    case Value(it) => Ok(Body(it, r))
    case ElementNode(_) => Err(FailedStringAssertion)
  }

  /**
   * The type switch of the separate branch of `String` on one slot: a
   * header gives its full row, a string itself; a pushed node fails the
   * string assertion.
   */
  function FullAsWritten<H>(c: Cell<H>, r: Renderer<H>): (res: Result<string, Panic>)
    ensures res.Ok? <==> c.Value?
    ensures res.Ok? ==> res.value == Full(c.item, r)
  {
    match c
    case Value(it) => Ok(Full(it, r))
    case ElementNode(_) => Err(FailedStringAssertion)
  }

  /** The values written by `EncodeBody` for slots that all hold values. */
  function BodyOfCells<H>(cells: seq<Cell<H>>, r: Renderer<H>): (parts: seq<string>)
    requires AllValues(cells)
  {
    seq(|cells|, i requires 0 <= i < |cells| => Body(cells[i].item, r))
  }

  /** The full rows written by the separate branch for slots that all hold values. */
  function FullOfCells<H>(cells: seq<Cell<H>>, r: Renderer<H>): (parts: seq<string>)
    requires AllValues(cells)
  {
    seq(|cells|, i requires 0 <= i < |cells| => Full(cells[i].item, r))
  }

  /** Slots whose first holds a value and whose rest hold values hold only values. */
  lemma AllValuesCons<H>(cells: seq<Cell<H>>)
    requires |cells| >= 1 && cells[0].Value? && AllValues(cells[1..])
    ensures AllValues(cells)
  {
    forall i | 0 <= i < |cells|
      ensures cells[i].Value?
    {
      if i > 0 {
        assert cells[1..][i - 1] == cells[i];
      }
    }
  }

  /**
   * `EncodeBody` over the slots as stored: it completes exactly when every
   * slot holds a value, and then writes what the corrected encoder writes.
   */
  function EncodeBodyAsWritten<H>(l: RawList<H>, r: Renderer<H>): (res: Result<string, Panic>)
    ensures res.Ok? <==> AllValues(l.cells)
    ensures res.Ok? ==> res.value == Join(BodyOfCells(l.cells, r), COMMA)
    decreases |l.cells|
  {
    if |l.cells| == 0 then Ok("")
    else
      var head :- BodyAsWritten(l.cells[0], r);
      var tail :- EncodeBodyAsWritten(l.(cells := l.cells[1..]), r);
      AllValuesCons(l.cells);
      assert BodyOfCells(l.cells, r)[1..] == BodyOfCells(l.cells[1..], r);
      Ok(head + (if |l.cells| > 1 then [COMMA] else []) + tail)
  }

  /**
   * The separate branch of `String` over the slots as stored: it completes
   * exactly when every slot holds a value, and then writes each full row in
   * list order with nothing in between.
   */
  function EncodeEachAsWritten<H>(cells: seq<Cell<H>>, r: Renderer<H>): (res: Result<string, Panic>)
    ensures res.Ok? <==> AllValues(cells)
    ensures res.Ok? ==> res.value == Concat(FullOfCells(cells, r))
    decreases |cells|
  {
    if |cells| == 0 then Ok("")
    else
      var head :- FullAsWritten(cells[0], r);
      var tail :- EncodeEachAsWritten(cells[1..], r);
      AllValuesCons(cells);
      assert FullOfCells(cells, r)[1..] == FullOfCells(cells[1..], r);
      Ok(head + tail)
  }

  /**
   * `String` over the slots as stored: the bare `name:` row for an empty
   * list; otherwise it completes exactly when every slot holds a value, and
   * then writes the separate form or the comma form as the name requires.
   */
  function StringAsWritten<H>(l: RawList<H>, r: Renderer<H>): (res: Result<string, Panic>)
    ensures |l.cells| == 0 ==> res == Ok(l.name + ":" + NEWLINE)
    ensures res.Ok? <==> AllValues(l.cells)
    ensures |l.cells| > 0 && res.Ok? && EncodedSeparately(l.name) ==>
              res.value == Concat(FullOfCells(l.cells, r))
    ensures |l.cells| > 0 && res.Ok? && !EncodedSeparately(l.name) ==>
              res.value == l.name + COLON + SP + Join(BodyOfCells(l.cells, r), COMMA) + NEWLINE
  {
    if |l.cells| == 0 then Ok(l.name + ":" + NEWLINE)
    else if EncodedSeparately(l.name) then EncodeEachAsWritten(l.cells, r)
    else
      var body :- EncodeBodyAsWritten(l, r);
      Ok(l.name + COLON + SP + body + NEWLINE)
  }

  /** Lifting a list gives slots that all hold values, whose parts are the list's parts. */
  lemma LiftParts<H>(l: SipHeaderList<H>, r: Renderer<H>)
    ensures AllValues(Lift(l).cells)
    ensures BodyOfCells(Lift(l).cells, r) == BodyParts(l.items, r)
    ensures FullOfCells(Lift(l).cells, r) == FullParts(l.items, r)
  {
  }

  /** On lists that hold only values the as-written body agrees with the corrected one. */
  lemma AsWrittenAgreesOnValues<H>(l: SipHeaderList<H>, r: Renderer<H>)
    ensures EncodeBodyAsWritten(Lift(l), r) == Ok(EncodeBody(l, r))
  {
    LiftParts(l, r);
  }

  /** On lists that hold only values the as-written text agrees with the corrected one, in every branch. */
  lemma StringAsWrittenAgreesOnValues<H>(l: SipHeaderList<H>, r: Renderer<H>)
    ensures StringAsWritten(Lift(l), r) == Ok(String(l, r))
  {
    LiftParts(l, r);
  }

  /**
   * After the as-written `Concatenate` of any non-empty list, both encoders
   * panic, whatever the receiving list held before.
   */
  lemma ConcatenateThenEncodePanics<H>(l: RawList<H>, shl: RawList<H>, r: Renderer<H>)
    requires |shl.cells| >= 1
    ensures EncodeBodyAsWritten(ConcatenateAsWritten(l, Some(shl)), r).Err?
    ensures StringAsWritten(ConcatenateAsWritten(l, Some(shl)), r).Err?
  {
    var c := ConcatenateAsWritten(l, Some(shl));
    assert c.cells[|l.cells| + 0] == ElementNode(shl.cells[0]);
    assert !AllValues(c.cells);
  }

  /**
   * A concrete instance: appending a Supported list holding "timer" to an
   * empty Supported list makes the Go encoder panic.
   */
  lemma ConcatenatePanicExample(r: Renderer<int>)
    ensures StringAsWritten(ConcatenateAsWritten(RawList(SUPPORTED, []), Some(RawList(SUPPORTED, [Value(Str("timer"))]))), r).Err?
  {
    ConcatenateThenEncodePanics(RawList(SUPPORTED, []), RawList(SUPPORTED, [Value(Str("timer"))]), r);
  }

  /** The same appending in the corrected model writes the row `Supported: timer`. */
  lemma ConcatenateCorrectedExample(r: Renderer<int>)
    ensures String(Concatenate(NewSupportedList<int>(), Some(SipHeaderList(SUPPORTED, [Str("timer")]))), r)
            == SUPPORTED + ": timer" + NEWLINE
  {
    var c := Concatenate(NewSupportedList<int>(), Some(SipHeaderList(SUPPORTED, [Str("timer")])));
    assert c.items == [Str("timer")];
    assert BodyParts(c.items, r) == ["timer"];
    assert EncodeBody(c, r) == "timer";
  }

  /**
   * The receiving list after k turns of the Go loop in `Concatenate(this)`
   * with `shl` the receiving list itself: turn k pushes the node found at
   * position k of the list as it stands, if there is one; when the cursor
   * is past the end the loop has stopped and the list stays as it is.
   */
  function AliasedAfter<H>(cells: seq<Cell<H>>, k: nat): (r: seq<Cell<H>>)
    ensures |r| >= |cells|
  {
    if k == 0 then cells
    else
      var prev := AliasedAfter(cells, k - 1);
      if k - 1 < |prev| then prev + [ElementNode(prev[k - 1])] else prev
  }

  /**
   * `Concatenate(this)` on a non-empty list never returns: after every
   * number k of turns the list has grown by exactly k nodes and the cursor
   * (at position k) still points at a node, so the loop takes another turn.
   */
  lemma {:induction false} AliasedCursorNeverEnds<H>(cells: seq<Cell<H>>, k: nat)
    requires |cells| >= 1
    ensures |AliasedAfter(cells, k)| == |cells| + k
    ensures k < |AliasedAfter(cells, k)|
  {
    if k > 0 {
      AliasedCursorNeverEnds(cells, k - 1);
    }
  }

  /** On an empty list the aliased loop stops at once and the list stays empty. */
  lemma {:induction false} AliasedEmptyStops<H>(k: nat)
    ensures AliasedAfter<H>([], k) == []
  {
    if k > 0 {
      AliasedEmptyStops<H>(k - 1);
    }
  }

  /** `Clone` as written: the header name and no elements. */
  function CloneAsWritten<H>(l: SipHeaderList<H>): (c: SipHeaderList<H>)
    ensures c.name == l.name && |c.items| == 0
  {
    NewSipHeaderList(l.name)
  }

  /** The as-written clone of a non-empty comma-form list is written out differently from the original. */
  lemma CloneAsWrittenLosesElements<H>(l: SipHeaderList<H>, r: Renderer<H>)
    requires |l.items| >= 1 && !EncodedSeparately(l.name)
    ensures String(CloneAsWritten(l), r) != String(l, r)
    ensures String(Clone(l), r) == String(l, r)
  {
    assert |String(CloneAsWritten(l), r)| == |l.name| + 1 + |NEWLINE|;
    assert |String(l, r)| >= |l.name| + |COLON| + |SP| + |NEWLINE|;
  }
}
