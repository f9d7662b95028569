/**
 * A list of SIP header values that share one header name, and the two ways
 * it is written out (section 7.3.1 of RFC 3261): rows of the same header
 * may be folded into one row with comma-separated values, except for
 * WWW-Authenticate, Proxy-Authenticate, Authorization and
 * Proxy-Authorization, whose elements are each written out in full.
 *
 * The list is a value: the Go `container/list` becomes a `seq<Item<H>>`.
 * An element is either a header object of type H or a raw string. How a
 * header object renders itself (its `String` and `EncodeBody` methods) is
 * not part of this model and is passed in as a `Renderer`.
 */
module HeaderLists {
  import opened Wrappers
  import opened Text

  // Separators written by the encoder (section 7.3.1 of RFC 3261).
  const COLON: string := ":"
  const SP: string := " "
  const COMMA: char := ','
  const NEWLINE: string := "\r\n"

  // Header names, spelled as in section 20 of RFC 3261.
  const WWW_AUTHENTICATE: string := "WWW-Authenticate"
  const PROXY_AUTHENTICATE: string := "Proxy-Authenticate"
  const AUTHORIZATION: string := "Authorization"
  const PROXY_AUTHORIZATION: string := "Proxy-Authorization"
  const SUPPORTED: string := "Supported"
  const UNSUPPORTED: string := "Unsupported"

  /** The headers section 7.3.1 of RFC 3261 exempts from combining rows with commas. */
  const AUTHENTICATION_HEADERS: set<string> :=
    {WWW_AUTHENTICATE, PROXY_AUTHENTICATE, AUTHORIZATION, PROXY_AUTHORIZATION}

  /** The four authentication headers that have no comma-separated form, compared by name. */
  predicate EncodedSeparately(name: string): (b: bool)
    ensures b <==> name in AUTHENTICATION_HEADERS
  {
    || name == WWW_AUTHENTICATE
    || name == PROXY_AUTHENTICATE
    || name == AUTHORIZATION
    || name == PROXY_AUTHORIZATION
  }

  /** How an element header renders itself: the whole header row, and the value after the name. */
  datatype Renderer<!H> = Renderer(full: H -> string, body: H -> string)

  /** An element of the list: a header object or a raw string value. */
  datatype Item<H> = Hdr(h: H) | Str(s: string)

  /** A header name and its elements, in list order. */
  datatype SipHeaderList<H> = SipHeaderList(name: string, items: seq<Item<H>>)

  /** What the separate form writes for one element: a header's full row, a string verbatim. */
  function Full<H>(it: Item<H>, r: Renderer<H>): (s: string)
  {
    match it
    case Hdr(h) => r.full(h)
    case Str(s) => s
  }

  /** What the comma form writes for one element: a header's value, a string verbatim. */
  function Body<H>(it: Item<H>, r: Renderer<H>): (s: string)
  {
    match it
    case Hdr(h) => r.body(h)
    case Str(s) => s
  }

  function FullParts<H>(items: seq<Item<H>>, r: Renderer<H>): (parts: seq<string>)
  {
    seq(|items|, i requires 0 <= i < |items| => Full(items[i], r))
  }

  function BodyParts<H>(items: seq<Item<H>>, r: Renderer<H>): (parts: seq<string>)
  {
    seq(|items|, i requires 0 <= i < |items| => Body(items[i], r))
  }

  /** A new list carries its header name and no elements. */
  function NewSipHeaderList<H>(name: string): (l: SipHeaderList<H>)
    ensures l.name == name && |l.items| == 0
  {
    SipHeaderList(name, [])
  }

  /** The Proxy-Authenticate list: an instance whose elements are written separately. */
  function NewProxyAuthenticateList<H>(): (l: SipHeaderList<H>)
    ensures l.name == PROXY_AUTHENTICATE && |l.items| == 0
    ensures EncodedSeparately(l.name)
  {
    NewSipHeaderList(PROXY_AUTHENTICATE)
  }

  /** The Supported list: an instance written in the comma form. */
  function NewSupportedList<H>(): (l: SipHeaderList<H>)
    ensures l.name == SUPPORTED && |l.items| == 0
    ensures !EncodedSeparately(l.name)
  {
    NewSipHeaderList(SUPPORTED)
  }

  /** The Unsupported list: an instance written in the comma form. */
  function NewUnsupportedList<H>(): (l: SipHeaderList<H>)
    ensures l.name == UNSUPPORTED && |l.items| == 0
    ensures !EncodedSeparately(l.name)
  {
    NewSipHeaderList(UNSUPPORTED)
  }

  /** Every header list reports that it is one. */
  function IsHeaderList<H>(l: SipHeaderList<H>): (b: bool)
    ensures b
  {
    true
  }

  /**
   * A copy of the list: same header name, same elements in the same order.
   * (The Go `Clone` copies
   * only the name; see `HeaderListsAsWritten.CloneAsWritten`.)
   */
  function Clone<H>(l: SipHeaderList<H>): (c: SipHeaderList<H>)
    ensures c.name == l.name && c.items == l.items
  {
    SipHeaderList(l.name, l.items)
  }

  /**
   * Appends the elements of `shl`, one at a time and in order, to the end
   * of `l`; a nil `shl` changes nothing. The header name of `shl` is not
   * looked at. `shl`'s elements are read from a snapshot, so appending a
   * list to itself doubles it (the Go loop never ends in that case; see
   * `HeaderListsAsWritten.AliasedCursorNeverEnds`).
   */
  function Concatenate<H>(l: SipHeaderList<H>, shl: Option<SipHeaderList<H>>): (r: SipHeaderList<H>)
    ensures shl.None? ==> r == l
    ensures shl.Some? ==> r.name == l.name
    ensures shl.Some? ==> |r.items| == |l.items| + |shl.value.items|
    ensures shl.Some? ==> r.items[..|l.items|] == l.items
    ensures shl.Some? ==> r.items[|l.items|..] == shl.value.items
  {
    match shl
    case None => l
    case Some(other) => l.(items := PushBackAll(l.items, other.items))
  }

  /** The list after pushing each of `src` onto the back of `acc`, front to back. */
  function {:tailrecursion} PushBackAll<H>(acc: seq<Item<H>>, src: seq<Item<H>>): (r: seq<Item<H>>)
    ensures |r| == |acc| + |src|
    ensures r[..|acc|] == acc && r[|acc|..] == src
    decreases |src|
  {
    if |src| == 0 then acc
    else PushBackAll(acc + [src[0]], src[1..])
  }

  /**
   * The value part of the comma form: each element's value in list order,
   * a comma after every element that has a successor.
   */
  function EncodeBody<H>(l: SipHeaderList<H>, r: Renderer<H>): (s: string)
    ensures |l.items| == 0 ==> s == ""
    ensures s == Join(BodyParts(l.items, r), COMMA)
    decreases |l.items|
  {
    if |l.items| == 0 then ""
    else
      var rest := l.(items := l.items[1..]);
      assert BodyParts(rest.items, r) == BodyParts(l.items, r)[1..];
      Body(l.items[0], r) + (if |l.items| > 1 then [COMMA] else []) + EncodeBody(rest, r)
  }

  /** Each element's full encoding, in list order, with nothing in between. */
  function EncodeEach<H>(items: seq<Item<H>>, r: Renderer<H>): (s: string)
    ensures s == Concat(FullParts(items, r))
    decreases |items|
  {
    if |items| == 0 then ""
    else
      assert FullParts(items[1..], r) == FullParts(items, r)[1..];
      Full(items[0], r) + EncodeEach(items[1..], r)
  }

  /**
   * The text of the list: a bare `name:` row when it is empty; for the
   * four authentication headers, each element written in full with no
   * name prefix and no commas; otherwise one `name: v1,v2,...` row.
   */
  function String<H>(l: SipHeaderList<H>, r: Renderer<H>): (s: string)
    ensures |l.items| == 0 ==> s == l.name + ":" + NEWLINE
    ensures |l.items| > 0 && EncodedSeparately(l.name) ==> s == Concat(FullParts(l.items, r))
    ensures |l.items| > 0 && !EncodedSeparately(l.name) ==>
              s == l.name + COLON + SP + Join(BodyParts(l.items, r), COMMA) + NEWLINE
  {
    if |l.items| == 0 then l.name + ":" + NEWLINE
    else if EncodedSeparately(l.name) then EncodeEach(l.items, r)
    else l.name + COLON + SP + EncodeBody(l, r) + NEWLINE
  }

  /** A freshly constructed list, whatever its name, encodes as the bare `name:` row. */
  lemma NewListEncodesBareName<H>(name: string, r: Renderer<H>)
    ensures String(NewSipHeaderList<H>(name), r) == name + ":" + NEWLINE
  {
  }

  /** A clone is written out exactly as the original, under every renderer. */
  lemma CloneEncodesSame<H>(l: SipHeaderList<H>, r: Renderer<H>)
    ensures String(Clone(l), r) == String(l, r)
    ensures EncodeBody(Clone(l), r) == EncodeBody(l, r)
  {
  }

  /**
   * The comma form of n >= 1 comma-free values holds exactly n - 1 commas
   * between the name row's colon and its line end.
   */
  lemma EncodeBodyCommaCount<H>(l: SipHeaderList<H>, r: Renderer<H>)
    requires |l.items| >= 1
    requires FreeOf(BodyParts(l.items, r), COMMA)
    ensures Occurrences(EncodeBody(l, r), COMMA) == |l.items| - 1
  {
    JoinSeparatorCount(BodyParts(l.items, r), COMMA);
  }

  /**
   * Order is kept: cutting the body at its commas gives back, position by
   * position, each string element verbatim and each header's value.
   */
  lemma EncodeBodySplitsBack<H>(l: SipHeaderList<H>, r: Renderer<H>)
    requires |l.items| >= 1
    requires FreeOf(BodyParts(l.items, r), COMMA)
    ensures |SplitOn(EncodeBody(l, r), COMMA)| == |l.items|
    ensures forall i :: 0 <= i < |l.items| ==>
              SplitOn(EncodeBody(l, r), COMMA)[i] ==
                (match l.items[i] case Hdr(h) => r.body(h) case Str(s) => s)
  {
    SplitJoin(BodyParts(l.items, r), COMMA);
  }

  /** Concatenating two non-empty lists joins their comma bodies with one comma. */
  lemma ConcatenateEncodeBody<H>(l: SipHeaderList<H>, m: SipHeaderList<H>, r: Renderer<H>)
    requires |l.items| >= 1 && |m.items| >= 1
    ensures EncodeBody(Concatenate(l, Some(m)), r) == EncodeBody(l, r) + [COMMA] + EncodeBody(m, r)
  {
    var c := Concatenate(l, Some(m));
    assert c.items == l.items + m.items;
    assert BodyParts(c.items, r) == BodyParts(l.items, r) + BodyParts(m.items, r);
    JoinAppend(BodyParts(l.items, r), BodyParts(m.items, r), COMMA);
  }

  /** For an authentication header, the concatenated list's text is the two texts back to back. */
  lemma ConcatenateSeparateString<H>(l: SipHeaderList<H>, m: SipHeaderList<H>, r: Renderer<H>)
    requires EncodedSeparately(l.name)
    requires |l.items| >= 1 && |m.items| >= 1
    ensures String(Concatenate(l, Some(m)), r) == String(l, r) + String(SipHeaderList(l.name, m.items), r)
  {
    var c := Concatenate(l, Some(m));
    assert c.items == l.items + m.items;
    assert FullParts(c.items, r) == FullParts(l.items, r) + FullParts(m.items, r);
    ConcatAppend(FullParts(l.items, r), FullParts(m.items, r));
  }

  /** Appending a list to itself (from a snapshot) doubles its elements. */
  lemma SelfConcatenateDoubles<H>(l: SipHeaderList<H>)
    ensures Concatenate(l, Some(l)).items == l.items + l.items
  {
    var c := Concatenate(l, Some(l));
    assert c.items == c.items[..|l.items|] + c.items[|l.items|..];
  }
}
