# SIP header lists and the client-transaction contract, in Dafny

This project models two pieces of the gosips SIP stack.

**SIPHeaderList** (`header/SIPHeaderList.go`) holds the values of one header
name, in order, and writes them out in one of two forms. This follows
section 7.3.1 of RFC 3261:

- **Comma form.** A single row `Name: v1,v2,...` followed by CRLF. Each
  element contributes its value: a header's `EncodeBody`, or a raw string
  as it is.
- **Separate form.** Used for WWW-Authenticate, Proxy-Authenticate,
  Authorization and Proxy-Authorization. Each element's full encoding is
  written one after another, with no name prefix and no commas.
- **Empty list.** Written as the bare row `Name:` followed by CRLF.

The list is a value: a header name and a `seq<Item<H>>`, where an item is
a header object `Hdr(h)` or a raw string `Str(s)`. How an element header
renders itself is not part of this model. It comes in as a `Renderer`, a
pair of functions for its full row and its value. The Proxy-Authenticate,
Supported and Unsupported lists are instances of the same model under
their header names.

**ClientTransaction** (`sip/ClientTransaction.go`) is an interface whose
doc-comment fixes two state machines:

- INVITE: Calling, Proceeding, Completed, Terminated.
- Non-INVITE: Trying, Proceeding, Completed, Terminated.

The comment also fixes the errors of `SendRequest`, `CreateCancel` and
`CreateAck`. The transitions are a table that allows skips and only ever
moves forward, as in Figures 5 and 6 of RFC 3261 (sections 17.1.1 and
17.1.2). Responses, timer expiries and transport failures arrive as
events. The operations return `Result<_, SipException>`. A registry of
live transactions keeps transaction identities unique.

Files:

- `wrappers.dfy`: `Option` and `Result`.
- `text.dfy`: reference definitions of joining, concatenating and
  splitting text, with their lemmas.
- `header_list.dfy`: the header-list model.
- `header_list_as_written.dfy`: the Go `Concatenate` and `Clone` as they
  are written, next to the corrected definitions (see Findings).
- `client_transaction.dfy`: the transaction model.

The separators and header names are spelled as in RFC 3261: `:`, a space,
`,`, CRLF, `WWW-Authenticate` and so on. The Go constants themselves
(package `core`) are not part of this model. The contracts write the
separators through the same named constants the Go code uses, and the
literal `:` where the Go code writes one (the empty-list row). The general
lemmas about encoding then use only that the comma is one character. Two
concrete lemmas depend on the spellings themselves:
- `ConcatenateCorrectedExample` needs the exact text of `Supported`, the
  colon, the space and CRLF.
- `CloneAsWrittenLosesElements` needs the colon and space together to be
  longer than the literal `:`.

## Model

| member | source | states |
|---|---|---|
| HeaderLists.NewSipHeaderList | header/SIPHeaderList.go:28-33 | A new list has the given header name and no elements |
| HeaderLists.NewListEncodesBareName | header/SIPHeaderList.go:75-77 | A freshly built list is written as `name:` plus CRLF, with no space and no body |
| HeaderLists.NewProxyAuthenticateList | sip/header/ProxyAuthenticateList.go:14-18 | The Proxy-Authenticate list starts empty, and its name selects the separate form |
| HeaderLists.NewSupportedList | sip/header/SupportedList.go:16-20 | The Supported list starts empty, and its name selects the comma form |
| HeaderLists.NewUnsupportedList | sip/header/UnsupportedList.go:14-18 | The Unsupported list starts empty, and its name selects the comma form |
| HeaderLists.IsHeaderList | header/SIPHeaderList.go:126-128 | Every header list reports true |
| HeaderLists.Clone | header/SIPHeaderList.go:42-48 | Corrected clone: same name, same elements, same order |
| HeaderLists.CloneEncodesSame | header/SIPHeaderList.go:42-48 | The corrected clone has the same text and body as the original under every renderer |
| HeaderLists.Concatenate | header/SIPHeaderList.go:50-58 | Corrected: pushes values, not nodes (see Findings). nil changes nothing. Otherwise: name kept, length is the sum, old elements stay in front unchanged, and `shl`'s elements follow in order |
| HeaderLists.PushBackAll | header/SIPHeaderList.go:56-58 | Corrected: pushing element values one at a time onto the back gives the old list followed by the pushed elements in order |
| HeaderLists.SelfConcatenateDoubles | header/SIPHeaderList.go:56-58 | Corrected: appending a list to itself doubles its elements (the Go loop never ends here; see Findings) |
| HeaderLists.EncodeBody | header/SIPHeaderList.go:109-124 | The body is the element values joined by commas. An empty list gives "" |
| HeaderLists.EncodeBodyCommaCount | header/SIPHeaderList.go:118-120 | n ≥ 1 comma-free values give exactly n−1 commas: one between neighbours, none trailing |
| HeaderLists.EncodeBodySplitsBack | header/SIPHeaderList.go:112-117 | For a non-empty list whose values contain no comma, splitting the body at its commas gives back, position by position, each string element as written and each header's value |
| HeaderLists.ConcatenateEncodeBody | header/SIPHeaderList.go:50-58 | The body of two concatenated non-empty lists is their two bodies with one comma between |
| HeaderLists.EncodeEach | header/SIPHeaderList.go:88-96 | The separate form is each element's full encoding in list order, with nothing between |
| HeaderLists.String | header/SIPHeaderList.go:74-101 | Empty list: `name:` plus CRLF. Authentication name: the elements' full encodings in order, with no name and no commas. Any other name: `name: ` followed by the comma-joined values and CRLF |
| HeaderLists.EncodedSeparately | header/SIPHeaderList.go:82-85 | A name selects the separate form exactly when it is one of the four authentication header names |
| HeaderLists.ConcatenateSeparateString | header/SIPHeaderList.go:88-96 | For an authentication header, the text of two concatenated non-empty lists is the two texts back to back |
| HeaderListsAsWritten.ConcatenateAsWritten | header/SIPHeaderList.go:50-58 | As written, for an `shl` distinct from the receiving list: each node of `shl` is pushed itself, not its value, behind the old elements |
| HeaderListsAsWritten.EncodeBodyAsWritten | header/SIPHeaderList.go:109-124 | As written: the body completes exactly when every slot holds a value, and then equals the comma join |
| HeaderListsAsWritten.BodyAsWritten | header/SIPHeaderList.go:113-117 | As written, one slot of `EncodeBody`: a header gives its value and a string itself. A pushed node fails the string assertion |
| HeaderListsAsWritten.FullAsWritten | header/SIPHeaderList.go:89-93 | As written, one slot of the separate form: a header gives its full row and a string itself. A pushed node fails the string assertion |
| HeaderListsAsWritten.EncodeEachAsWritten | header/SIPHeaderList.go:88-94 | As written: the separate form completes exactly when every slot holds a value. It then writes each full row in order with nothing between |
| HeaderListsAsWritten.StringAsWritten | header/SIPHeaderList.go:74-101 | As written: an empty list gives `name:` plus CRLF. Otherwise the text completes exactly when every slot holds a value. It is then the separate form for an authentication name, and `name: ` with the comma-joined values and CRLF for any other name |
| HeaderListsAsWritten.AsWrittenAgreesOnValues | header/SIPHeaderList.go:112-121 | On lists holding only values, the as-written body equals the corrected one |
| HeaderListsAsWritten.StringAsWrittenAgreesOnValues | header/SIPHeaderList.go:74-101 | On lists holding only values, the as-written text equals the corrected `String` in every branch |
| HeaderListsAsWritten.ConcatenateThenEncodePanics | header/SIPHeaderList.go:56-58 | After the as-written `Concatenate` of any non-empty list, `EncodeBody` and `String` both fail the `e.Value.(string)` assertion |
| HeaderListsAsWritten.ConcatenatePanicExample | header/SIPHeaderList.go:50-58 | Concrete input: an empty Supported list concatenated with one holding "timer" makes `String` panic |
| HeaderListsAsWritten.ConcatenateCorrectedExample | header/SIPHeaderList.go:50-58 | The same input in the corrected model gives `Supported: timer` plus CRLF |
| HeaderListsAsWritten.AliasedAfter | header/SIPHeaderList.go:56-58 | The list after k turns of the loop in `Concatenate(this)` is never shorter than at the start |
| HeaderListsAsWritten.AliasedCursorNeverEnds | header/SIPHeaderList.go:56-58 | On a non-empty list, `Concatenate(this)` grows the list by one node per turn and the cursor never passes the end, so the loop never stops |
| HeaderListsAsWritten.AliasedEmptyStops | header/SIPHeaderList.go:56-58 | On an empty list, `Concatenate(this)` stops at once and changes nothing |
| HeaderListsAsWritten.CloneAsWritten | header/SIPHeaderList.go:42-48 | As written: the clone has the same header name and zero elements |
| HeaderListsAsWritten.CloneAsWrittenLosesElements | header/SIPHeaderList.go:42-48 | For a non-empty comma-form list, the as-written clone's text differs from the original's, and the corrected clone's text does not |
| ClientTransactions.Step | sip/ClientTransaction.go:44-48 | The transition table of each kind. No transition leaves Terminated, and none enters the initial state |
| ClientTransactions.StepIsForward | sip/ClientTransaction.go:40-48 | A documented transition holds exactly when both states belong to the kind and the second comes strictly later in the order |
| ClientTransactions.TerminatedIsFinal | sip/ClientTransaction.go:40-48 | No transition leaves Terminated, in either kind |
| ClientTransactions.StepTransitive | sip/ClientTransaction.go:44-48 | Two forward transitions compose into a documented (skipping) transition |
| ClientTransactions.RunNeverGoesBack | sip/ClientTransaction.go:44-48 | Along any run from the initial state, each later state is strictly further on, so no state is re-entered |
| ClientTransactions.RunRankGrows | sip/ClientTransaction.go:44-48 | After i transitions a run is at least i positions along the order |
| ClientTransactions.RunIsShortAndInRole | sip/ClientTransaction.go:44-48 | A run has at most four states. An INVITE run never visits Trying, and a non-INVITE run never visits Calling |
| ClientTransactions.NewClientTransaction | sip/ClientTransaction.go:44-48 | A new transaction starts in Calling when the request is an INVITE and in Trying otherwise, with nothing sent and no response |
| ClientTransactions.Receive | sip/ClientTransaction.go:40-48 | An event either leaves the state alone or makes one documented forward transition. From a pending state, a 1xx moves to Proceeding. A final response is recorded and moves to Completed, or to Terminated for a 2xx to an INVITE. The timeout ends any pending transaction, an INVITE in Proceeding included, and the Completed-state timer ends a Completed one. Only a final response sets the final status. A transport failure ends an INVITE in Calling or Completed and a non-INVITE in a pending state. Every other event leaves it unchanged, and so does every event before the request is sent. Terminated absorbs every event, and a final status once received is kept |
| ClientTransactions.NoFinalResponseTimesOut | sip/ClientTransaction.go:89-96 | A sent, pending transaction with no final response, such as an INVITE answered only provisionally and then cancelled, ends on the timeout. It has no final status, so it cannot be acknowledged |
| ClientTransactions.EveryStepHasAnEvent | sip/ClientTransaction.go:40-48 | Once the request is sent, some event takes every documented transition |
| ClientTransactions.ReceiveAllMovesForward | sip/ClientTransaction.go:40-48 | After any sequence of events, the transaction is where it started or one documented forward transition further on |
| ClientTransactions.TerminatedAbsorbs | sip/ClientTransaction.go:40-48 | No sequence of events changes a Terminated transaction |
| ClientTransactions.SendRequest | sip/ClientTransaction.go:55-78 | Fails exactly when the request was already sent or the transport refuses it. On success only the sent mark changes, and the transaction is still in its initial state |
| ClientTransactions.TerminatedCannotResend | sip/ClientTransaction.go:55-78 | A terminated transaction was sent, so sending it again fails as already sent |
| ClientTransactions.CreateCancel | sip/ClientTransaction.go:80-125 | Fails exactly for a request that cannot be cancelled (ACK). Otherwise returns a CANCEL identical to the original except for its method |
| ClientTransactions.CreateAck | sip/ClientTransaction.go:127-138 | Fails exactly when no final response has been received. Otherwise returns an ACK carrying the original's Request-URI, Call-ID, From tag, top Via and CSeq number |
| ClientTransactions.FinalResponseEnablesAck | sip/ClientTransaction.go:135-136 | Once a final response reaches a sent, pending transaction, `CreateAck` succeeds |
| ClientTransactions.CompletedCanAck | sip/ClientTransaction.go:135-136 | `CreateAck` succeeds on every Completed transaction |
| ClientTransactions.NoFinalMeansNoAck | sip/ClientTransaction.go:135-136 | While only provisional responses and timers arrive, `CreateAck` keeps failing |
| ClientTransactions.KeyOf | sip/ClientTransaction.go:32-38 | A transaction's identity covers the request's Call-ID, top Via, CSeq number and method, Proxy-Require and Proxy-Authorization, among its other fields |
| ClientTransactions.KeyOfIdentifies | sip/ClientTransaction.go:32-38 | Two requests share an identity exactly when they are the same request |
| ClientTransactions.Register | sip/ClientTransaction.go:32-38 | Registration is refused exactly when a live transaction has the same identity. Otherwise the new transaction is appended and identities stay unique |
| ClientTransactions.Deliver | sip/ClientTransaction.go:84-90 | An event reaches only the transaction with its key. All others are left unchanged, and uniqueness is kept |
| ClientTransactions.CancelIsIndependent | sip/ClientTransaction.go:84-90 | Registering a CANCEL leaves the original transaction unchanged and gives the CANCEL its own identity. After that, events for either one do not touch the other |

## Left out

- ClientTransactions.Receive: Figure 5 of RFC 3261 has no timer in the INVITE Proceeding state. The model follows lines 93-96 of the interface instead, which promise a TimeoutEvent when no final response arrives, so `TimeoutTimerFired` also ends an INVITE in Proceeding. The one event stands for both Timer B and that timeout. Their durations are not modelled.
- Timers A–K, their intervals, retransmission and the automatic ACK for a non-2xx INVITE response. None of this code is visible. Timer expiries only appear as the events `TimeoutTimerFired` and `CompletedTimerFired`.
- The events the transaction emits to the application, and concurrency. The interface names Response events (lines 18-19) and the TimeoutEvent (lines 93-96), but does not show how they are delivered. The model does not emit them. A timeout shows only as the transaction reaching Terminated with no final status.
- SendRequest: routing (Router, next hop, dialog route set, lines 65-69) is not modelled. Every reason the provider may fail to send is folded into a transport outcome passed in, plus the already-sent case. The model leaves the transaction unchanged on failure, because the interface does not say what happens to its state.
- Receive: the interface does not say how a transaction whose request was never sent reacts to events. The model has it ignore them, so it stays in its initial state with no final status until `SendRequest` succeeds. That is why a terminated transaction cannot be sent again.
- CreateCancel: the comment's advice not to cancel requests other than INVITE (lines 98-101) is a recommendation, not an error. Only ACK is refused, as line 123 documents.
- CreateAck: the To tag of an ACK comes from the final response, which is not modelled. Its contract fixes the other identifying fields only.
- Register: the transaction identity is a tuple of the fields lines 32-38 list for the hash: To and From tags, Call-ID, Request-URI, top Via, CSeq number, and the Proxy-Require and Proxy-Authorization header fields. The CSeq method is added, so that a CANCEL is its own transaction. The tuple takes the hash as collision-free. Refusing a duplicate is how the model keeps identities unique. The interface does not name the error.
- The rendering of an element header (`SIPHeaderHeader.String` and `EncodeBody`). Its implementation is not visible, so it is a parameter.
- The `core.SIPHeaderNames_*` and `core.SIPSeparatorNames_*` constants are not part of this model. RFC 3261 spellings stand in for them.
- `bytes.Buffer` and `container/list` are modelled as `string` and `seq`. Object identity is not modelled, so "`shl` is unchanged by `Concatenate`" holds by construction. `HeaderListsAsWritten.ConcatenateAsWritten` therefore covers only an `shl` that is a different list. The aliased call is modelled separately by `HeaderListsAsWritten.AliasedAfter`.
- The commented-out `topFlag` branch of `Concatenate` (lines 59-65) is dead code and is not modelled.
- sip/header/ProxyAuthorizationImpl.go wraps the `Authentication` type, which is not part of this model, and has no logic of its own.
- sip/parser/ViaParser_test.go exercises a Via parser that is not part of this model.
- sip/parser/ParseExceptionListener.go is a callback interface with no behaviour.

## Findings

| source | as written | input that shows it | evidently intended | confidence | as-written member | corrected member |
|---|---|---|---|---|---|---|
| header/SIPHeaderList.go:57 | `Concatenate` pushes the cursor `e` (a `*list.Element`), not `e.Value` | an empty Supported list concatenated with a Supported list holding "timer"; then `String()` fails the assertion `e.Value.(string)` (line 116) | push each element's value, giving `Supported: timer` | high; not executed | HeaderListsAsWritten.ConcatenatePanicExample | HeaderLists.ConcatenateEncodeBody |
| header/SIPHeaderList.go:56-58 | `Concatenate(this)` walks the list it is appending to | any non-empty list concatenated with itself: after k turns the list holds k more nodes and the cursor is still on one, so the loop never ends | append a snapshot of the elements, doubling the list | high; not executed | HeaderListsAsWritten.AliasedCursorNeverEnds | HeaderLists.SelfConcatenateDoubles |
| header/SIPHeaderList.go:42-48 | `Clone` copies the header name only | a Supported list holding "100rel": the clone is written `Supported:` while the original is written `Supported: 100rel` | copy the elements as well, as a clone does | medium; not executed | HeaderListsAsWritten.CloneAsWrittenLosesElements | HeaderLists.CloneEncodesSame |
