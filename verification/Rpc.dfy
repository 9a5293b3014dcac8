/**
  Responses of configd: what a JSON document says, which documents a request accepts, and runs of
  many requests over one connection.
*/
module Rpc {
  import opened Options

  datatype Json =
    | Null | True | False | Int(n: int) | Real | Str(s: string)
    | Array(items: seq<Json>) | Object(fields: map<string, Json>)

  /** `json_object_get`, where an entry that is null counts as missing. */
  function Entry(j: Json, key: string): Option<Json> {
    if j.Object? && key in j.fields && !j.fields[key].Null? then Some(j.fields[key]) else None
  }

  // ----- the contents of a document

  /** The fields of an `<rpc-error>` (section 4.3 of RFC 6241). */
  datatype ErrorFields = ErrorFields(tag: Option<string>, kind: Option<string>, severity: Option<string>,
                                     appTag: Option<string>, path: Option<string>, message: Option<string>,
                                     info: Option<map<string, string>>)

  datatype Content =
    | Nothing | Number(n: int) | Text(s: string) | Vector(v: seq<string>) | Dict(m: map<string, string>)
    | ErrorText(s: string) | Errors(list: seq<ErrorFields>)

  function StringEntries(m: map<string, Json>): map<string, string> {
    map k | k in m && m[k].Str? :: m[k].s
  }

  predicate AllStrings(m: map<string, Json>) {
    forall k :: k in m ==> m[k].Str?
  }

  function StringItems(items: seq<Json>): Option<seq<string>> {
    if items == [] then Some([])
    else if !items[0].Str? then None
    else
      match StringItems(items[1..])
      case None => None
      case Some(rest) => Some([items[0].s] + rest)
  }

  /** The entries of all objects in an array, in one map; the later ones win. */
  function MergedEntries(items: seq<Json>, m: map<string, string>): Option<map<string, string>>
    decreases |items|
  {
    if items == [] then Some(m)
    else if !items[0].Object? then MergedEntries(items[1..], m)
    else if !AllStrings(items[0].fields) then None
    else MergedEntries(items[1..], m + StringEntries(items[0].fields))
  }

  function ItemsOf(j: Json): seq<Json> {
    if j.Array? then j.items else []
  }

  function StringEntry(m: map<string, string>, key: string): Option<string> {
    if key in m then Some(m[key]) else None
  }

  function FieldsFrom(m: map<string, string>, info: Option<map<string, string>>): ErrorFields {
    ErrorFields(StringEntry(m, "error-tag"), StringEntry(m, "error-type"), StringEntry(m, "error-severity"),
                StringEntry(m, "error-app-tag"), StringEntry(m, "error-path"), StringEntry(m, "error-message"), info)
  }

  /** The info of an error, if it has any; nothing at all when the info has an entry that is no string. */
  function InfoOf(j: Json): Option<Option<map<string, string>>> {
    match Entry(j, "error-info")
    case None => Some(None)
    case Some(info) =>
      match MergedEntries(ItemsOf(info), map[])
      case None => None
      case Some(m) => Some(Some(m))
  }

  /** One error; it has to be an object. */
  function ErrorOf(j: Json): Option<ErrorFields> {
    if !j.Object? || InfoOf(j).None? then None
    else Some(FieldsFrom(StringEntries(j.fields), InfoOf(j).value))
  }

  /** All errors in order, or nothing if one of them cannot be read. */
  function ErrorsOf(items: seq<Json>): Option<seq<ErrorFields>> {
    if forall i :: 0 <= i < |items| ==> ErrorOf(items[i]).Some? then
      Some(seq(|items|, i requires 0 <= i < |items| && ErrorOf(items[i]).Some? => ErrorOf(items[i]).value))
    else None
  }

  function ErrorList(j: Json): Option<seq<ErrorFields>> {
    match Entry(j, "error-list")
    case None => None
    case Some(list) => if list.Array? && list.items != [] then ErrorsOf(list.items) else None
  }

  /** An integer as a C int keeps it. */
  function ToInt(n: int): int {
    (n + 0x8000_0000) % 0x1_0000_0000 - 0x8000_0000
  }

  /** A result; a number with a fraction is not handled and leaves nothing. */
  function ResultOf(j: Json): Option<Content> {
    match j
    case True => Some(Number(1))
    case False => Some(Number(0))
    case Int(n) => Some(Number(ToInt(n)))
    case Str(s) => Some(Text(s))
    case Array(items) =>
      (match StringItems(items)
       case None => None
       case Some(v) => Some(Vector(v)))
    case Object(m) => if AllStrings(m) then Some(Dict(StringEntries(m))) else None
    case _ => Some(Nothing)
  }

  /** How far the extraction came: it failed, or the status so far is success or failure. */
  datatype Extraction = Failed | Extracted(content: Content, good: bool)

  function Extract(j: Json): Extraction {
    match (Entry(j, "result"), Entry(j, "error"), Entry(j, "mgmterrorlist"))
    case (Some(r), _, _) =>
      (match ResultOf(r)
       case None => Failed
       case Some(c) => Extracted(c, true))
    case (None, Some(e), _) => if e.Str? then Extracted(ErrorText(e.s), false) else Failed
    case (None, None, Some(l)) =>
      (match ErrorList(l)
       case None => Failed
       case Some(es) => Extracted(Errors(es), true))
    case (None, None, None) => Extracted(Nothing, false)
  }

  // ----- which documents a request accepts

  const ID_RANGE := 0x1_0000_0000

  /** An integer id, as far as an unsigned 32-bit number shows it. */
  predicate CarriesId(j: Json, reqId: nat) {
    j.Object? && "id" in j.fields && j.fields["id"].Int? && j.fields["id"].n % ID_RANGE == reqId
  }

  predicate HasIntegerId(j: Json) {
    j.Object? && "id" in j.fields && j.fields["id"].Int?
  }

  /** `recv_response` reports success. Without an integer id, the status of the extraction stays. */
  predicate Accepted(j: Json, reqId: nat) {
    match Extract(j)
    case Failed => false
    case Extracted(_, good) => if HasIntegerId(j) then CarriesId(j, reqId) else good
  }

  /** A result or an error list without an integer id. */
  predicate Untagged(j: Json) {
    !HasIntegerId(j) && Extract(j).Extracted? && Extract(j).good
  }

  /** Only documents with the id of the request are accepted, if and only if the document is not untagged. */
  lemma AcceptedCarriesIdIff(j: Json)
    ensures (forall reqId: nat :: Accepted(j, reqId) ==> CarriesId(j, reqId)) <==> !Untagged(j)
  {
    if Untagged(j) {
      assert Accepted(j, 0) && !CarriesId(j, 0);
    }
  }

  /** A result whose id is a string is accepted by every request. */
  lemma ResultWithTextIdIsAccepted(reqId: nat)
    ensures var j := Object(map["result" := Str("late"), "id" := Str("7")]);
            Accepted(j, reqId) && !CarriesId(j, reqId)
  {
    var j := Object(map["result" := Str("late"), "id" := Str("7")]);
    assert Entry(j, "result") == Some(Str("late"));
    assert !HasIntegerId(j);
  }

  // ----- runs

  /** What is in the stream: text that is no JSON, or a document. */
  datatype Item = Garbage | Doc(j: Json)

  datatype Connection = Connection(reqId: nat, input: seq<Item>)

  /** The first document, and the stream behind it. */
  function Receive(input: seq<Item>): (Option<Json>, seq<Item>) {
    if input == [] then (None, [])
    else if input[0].Doc? then (Some(input[0].j), input[1..])
    else Receive(input[1..])
  }

  /** A request that lacks arguments is not counted; one that cannot be written gets no response. */
  datatype Sending = Rejected | NotWritten | Written

  function Send(c: Connection, s: Sending): Connection {
    if s.Rejected? then c else c.(reqId := (c.reqId + 1) % ID_RANGE)
  }

  /** The document that a request delivers, with the id under which it was sent. */
  datatype Delivery = Delivery(reqId: nat, doc: Json)

  /** Receives the response to the request just sent. */
  function Awaited(c: Connection): (Connection, Option<Delivery>) {
    var (doc, rest) := Receive(c.input);
    (c.(input := rest),
     if doc.Some? && !doc.value.Null? && Accepted(doc.value, c.reqId) then Some(Delivery(c.reqId, doc.value)) else None)
  }

  function Request(c: Connection, s: Sending): (Connection, Option<Delivery>) {
    if s.Written? then Awaited(Send(c, s)) else (Send(c, s), None)
  }

  function Run(c: Connection, sends: seq<Sending>): seq<Option<Delivery>>
    decreases |sends|
  {
    if sends == [] then []
    else
      var (d, r) := Request(c, sends[0]);
      [r] + Run(d, sends[1..])
  }

  /** The number of the request, counting those that were given an id. */
  function RequestNumber(sends: seq<Sending>, i: nat): nat
    requires i <= |sends|
  {
    if i == 0 then 0 else RequestNumber(sends, i - 1) + if sends[i - 1].Rejected? then 0 else 1
  }

  predicate InStream(j: Json, input: seq<Item>) {
    Doc(j) in input
  }

  lemma {:induction false} ReceivedFromStream(input: seq<Item>)
    ensures var (doc, rest) := Receive(input);
            && (doc.Some? ==> InStream(doc.value, input))
            && forall x :: x in rest ==> x in input
  {
    if input != [] && !input[0].Doc? {
      ReceivedFromStream(input[1..]);
    }
  }

  lemma {:induction false} RequestNumberShift(sends: seq<Sending>, i: nat)
    requires 0 < i <= |sends|
    ensures RequestNumber(sends, i) == (if sends[0].Rejected? then 0 else 1) + RequestNumber(sends[1..], i - 1)
  {
    if i > 1 {
      RequestNumberShift(sends, i - 1);
    }
  }

  /** Every delivery comes from a document in the stream, and happens under the number of its request. */
  lemma {:induction false} RunDeliveries(c: Connection, sends: seq<Sending>, i: nat)
    requires i < |sends| && c.reqId < ID_RANGE
    ensures |Run(c, sends)| == |sends|
    ensures var r := Run(c, sends)[i];
            r.Some? ==>
              && r.value.reqId == (c.reqId + RequestNumber(sends, i + 1)) % ID_RANGE
              && InStream(r.value.doc, c.input) && Accepted(r.value.doc, r.value.reqId)
    decreases |sends|
  {
    var (d, first) := Request(c, sends[0]);
    RequestNumberShift(sends, i + 1);
    ReceivedFromStream(c.input);
    if i == 0 {
      if |sends| > 1 {
        RunDeliveries(d, sends[1..], 0);
      }
      assert RequestNumber(sends[1..], 0) == 0;
    } else {
      RunDeliveries(d, sends[1..], i - 1);
      WrapAround(c.reqId, if sends[0].Rejected? then 0 else 1, RequestNumber(sends[1..], i));
    }
  }

  lemma WrapAround(a: nat, b: nat, n: nat)
    ensures ((a + b) % ID_RANGE + n) % ID_RANGE == (a + b + n) % ID_RANGE
  {
  }

  /** The documents that the requests of a run receive. */
  function Received(c: Connection, sends: seq<Sending>): seq<Option<Json>>
    decreases |sends|
  {
    if sends == [] then []
    else
      var doc := if sends[0].Written? then Receive(c.input).0 else None;
      [doc] + Received(Request(c, sends[0]).0, sends[1..])
  }

  /** A delivery carries the id under which the request was sent. */
  predicate CarriesItsId(r: Option<Delivery>) {
    r.Some? ==> CarriesId(r.value.doc, r.value.reqId)
  }

  predicate IsTagged(doc: Option<Json>) {
    doc.Some? ==> !Untagged(doc.value)
  }

  predicate AllCarryTheirId(rs: seq<Option<Delivery>>) {
    forall i :: 0 <= i < |rs| ==> CarriesItsId(rs[i])
  }

  predicate AllTagged(docs: seq<Option<Json>>) {
    forall i :: 0 <= i < |docs| ==> IsTagged(docs[i])
  }

  lemma RequestCarriesIff(c: Connection, s: Sending)
    ensures CarriesItsId(Request(c, s).1) <==> IsTagged(if s.Written? then Receive(c.input).0 else None)
  {
    if s.Written? && Receive(c.input).0.Some? {
      AcceptedIffGood(Receive(c.input).0.value, Send(c, s).reqId);
    }
  }

  /** What is untagged is accepted without its id; what is tagged is accepted under its id only. */
  lemma AcceptedIffGood(j: Json, reqId: nat)
    ensures Untagged(j) ==> !j.Null? && Accepted(j, reqId) && !CarriesId(j, reqId)
    ensures !Untagged(j) && Accepted(j, reqId) ==> CarriesId(j, reqId)
  {
  }

  lemma AllOfHeadAndTail(r: Option<Delivery>, rs: seq<Option<Delivery>>, d: Option<Json>, ds: seq<Option<Json>>)
    ensures AllCarryTheirId([r] + rs) <==> CarriesItsId(r) && AllCarryTheirId(rs)
    ensures AllTagged([d] + ds) <==> IsTagged(d) && AllTagged(ds)
  {
    var x, y := [r] + rs, [d] + ds;
    assert x[0] == r && y[0] == d;
    assert forall i :: 0 <= i < |rs| ==> x[i + 1] == rs[i];
    assert forall i :: 0 <= i < |ds| ==> y[i + 1] == ds[i];
  }

  /** Over a run, all deliveries carry the id of their request if and only if no received document is untagged. */
  lemma {:induction false} RunCarriesIdsIff(c: Connection, sends: seq<Sending>)
    ensures AllCarryTheirId(Run(c, sends)) <==> AllTagged(Received(c, sends))
    decreases |sends|
  {
    if sends != [] {
      var d, r := Request(c, sends[0]).0, Request(c, sends[0]).1;
      var doc := if sends[0].Written? then Receive(c.input).0 else None;
      RequestCarriesIff(c, sends[0]);
      RunCarriesIdsIff(d, sends[1..]);
      AllOfHeadAndTail(r, Run(d, sends[1..]), doc, Received(d, sends[1..]));
    }
  }

  /** What a request delivers, if anything, is a document with the number of that request. */
  ghost predicate DeliversItsNumber(sends: seq<Sending>, rs: seq<Option<Delivery>>, i: nat)
    requires i < |sends| == |rs|
  {
    rs[i].Some? ==>
      && rs[i].value.reqId == RequestNumber(sends, i + 1)
      && HasIntegerId(rs[i].value.doc) && rs[i].value.doc.fields["id"].n % ID_RANGE == RequestNumber(sends, i + 1)
  }

  /**
    In a run of fewer than 2^32 requests on a new connection, over any stream with late responses and garbage, every
    delivered document carries exactly the number of its request, if and only if no document that a request of the
    run receives is a result or an error list without an integer id.
  */
  lemma DeliveriesCarryTheirNumberIff(input: seq<Item>, sends: seq<Sending>)
    requires |sends| < ID_RANGE
    ensures |Run(Connection(0, input), sends)| == |sends|
    ensures (forall i :: 0 <= i < |sends| ==> DeliversItsNumber(sends, Run(Connection(0, input), sends), i))
            <==> AllTagged(Received(Connection(0, input), sends))
  {
    var c := Connection(0, input);
    var rs := Run(c, sends);
    RunLength(c, sends);
    RunCarriesIdsIff(c, sends);
    forall i | 0 <= i < |sends|
      ensures CarriesItsId(rs[i]) <==> DeliversItsNumber(sends, rs, i)
    {
      RunDeliveries(c, sends, i);
      RequestNumberBound(sends, i + 1);
    }
  }

  lemma {:induction false} RunLength(c: Connection, sends: seq<Sending>)
    ensures |Run(c, sends)| == |sends|
    decreases |sends|
  {
    if sends != [] {
      RunLength(Request(c, sends[0]).0, sends[1..]);
    }
  }

  lemma {:induction false} RequestNumberBound(sends: seq<Sending>, i: nat)
    requires i <= |sends|
    ensures RequestNumber(sends, i) <= i
  {
    if i > 0 {
      RequestNumberBound(sends, i - 1);
    }
  }

  /** A response that answers another request of the run, and says so, is never delivered, whatever is in the stream. */
  lemma LateResponseIsNotDelivered(input: seq<Item>, sends: seq<Sending>, i: nat, j: Json, answered: nat)
    requires i < |sends| < ID_RANGE
    requires HasIntegerId(j) && j.fields["id"].n == answered && 1 <= answered <= |sends|
    requires answered != RequestNumber(sends, i + 1)
    ensures |Run(Connection(0, input), sends)| == |sends|
    ensures var r := Run(Connection(0, input), sends)[i]; r.Some? ==> r.value.doc != j
  {
    RunDeliveries(Connection(0, input), sends, i);
    RequestNumberBound(sends, i + 1);
  }
}
