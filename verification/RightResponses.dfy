/**
  The right response is delivered: what a document says in its fields, which document a request gets, and what the
  caller sees of it.
*/
module RightResponses {
  import opened Options
  import opened Rpc
  import opened RpcClient
  import opened ErrorText
  import opened RpcGet

  // ----- what a document says

  /** No such entry, or a null one. */
  predicate Lacks(j: Json, key: string) {
    j.Object? && (key in j.fields ==> j.fields[key] == Null)
  }

  predicate HasEntry(j: Json, key: string, v: Json) {
    j.Object? && key in j.fields && j.fields[key] == v
  }

  predicate SaysResult(j: Json, r: Json) {
    HasEntry(j, "result", r) && r != Null
  }

  predicate SaysError(j: Json, text: string) {
    Lacks(j, "result") && HasEntry(j, "error", Str(text))
  }

  ghost predicate SaysErrors(j: Json, items: seq<Json>, es: seq<ErrorFields>) {
    && Lacks(j, "result") && Lacks(j, "error")
    && j.Object? && "mgmterrorlist" in j.fields && HasEntry(j.fields["mgmterrorlist"], "error-list", Array(items))
    && items != [] && |es| == |items|
    && forall i :: 0 <= i < |items| ==> IsError(items[i], es[i])
  }

  function StringAt(j: Json, key: string): Option<string>
    requires j.Object?
  {
    if key in j.fields && j.fields[key].Str? then Some(j.fields[key].s) else None
  }

  /** The fields of one error, under the keys of the documents. */
  ghost predicate IsError(j: Json, e: ErrorFields) {
    && j.Object?
    && e.tag == StringAt(j, "error-tag") && e.kind == StringAt(j, "error-type")
    && e.severity == StringAt(j, "error-severity") && e.appTag == StringAt(j, "error-app-tag")
    && e.path == StringAt(j, "error-path") && e.message == StringAt(j, "error-message")
    && if Lacks(j, "error-info") then e.info == None
       else
         && e.info.Some?
         && IsInfo(if j.fields["error-info"].Array? then j.fields["error-info"].items else [], e.info.value)
  }

  /** The entry of the last object that has the key. */
  function LastWith(items: seq<Json>, key: string): Option<Json> {
    if items == [] then None
    else
      var last := items[|items| - 1];
      if last.Object? && key in last.fields then Some(last.fields[key]) else LastWith(items[..|items| - 1], key)
  }

  predicate EntriesAreStrings(items: seq<Json>) {
    forall i :: 0 <= i < |items| && items[i].Object? ==> forall k :: k in items[i].fields ==> items[i].fields[k].Str?
  }

  /** All entries of the objects are strings, and the last one of each key is taken. */
  ghost predicate IsInfo(items: seq<Json>, m: map<string, string>) {
    && EntriesAreStrings(items)
    && forall k :: if k in m then LastWith(items, k) == Some(Str(m[k])) else LastWith(items, k) == None
  }

  lemma {:induction false} LastWithFirst(items: seq<Json>, key: string)
    requires items != []
    ensures LastWith(items, key) ==
              if LastWith(items[1..], key).Some? then LastWith(items[1..], key)
              else if items[0].Object? && key in items[0].fields then Some(items[0].fields[key])
              else None
    decreases |items|
  {
    if |items| > 1 {
      LastWithFirst(items[..|items| - 1], key);
      assert items[1..][..|items| - 2] == items[..|items| - 1][1..];
    } else {
      assert items[1..] == [] && items[..0] == [];
    }
  }

  lemma {:induction false} MergedEntryIs(items: seq<Json>, was: map<string, string>, m: map<string, string>, k: string)
    requires MergedEntries(items, was) == Some(m)
    ensures if LastWith(items, k).Some? then k in m && LastWith(items, k) == Some(Str(m[k]))
            else (k in m <==> k in was) && (k in was ==> m[k] == was[k])
    decreases |items|
  {
    if items != [] {
      LastWithFirst(items, k);
      var next := if items[0].Object? then was + StringEntries(items[0].fields) else was;
      MergedEntryIs(items[1..], next, m, k);
    }
  }

  lemma {:induction false} MergedIffStrings(items: seq<Json>, was: map<string, string>)
    ensures MergedEntries(items, was).Some? <==> EntriesAreStrings(items)
    decreases |items|
  {
    if items != [] {
      var next := if items[0].Object? then was + StringEntries(items[0].fields) else was;
      MergedIffStrings(items[1..], next);
      assert forall i :: 0 <= i < |items| - 1 ==> items[1..][i] == items[i + 1];
    }
  }

  // ----- what is extracted

  /** Of a result: a number, a string, a vector of strings or a map of strings, as they are. */
  lemma ResultIsExtracted(j: Json, r: Json)
    requires SaysResult(j, r)
    ensures r == True ==> Extract(j) == Extracted(Number(1), true)
    ensures r == False ==> Extract(j) == Extracted(Number(0), true)
    ensures r.Int? && -0x8000_0000 <= r.n < 0x8000_0000 ==> Extract(j) == Extracted(Number(r.n), true)
    ensures r.Str? ==> Extract(j) == Extracted(Text(r.s), true)
    ensures r.Object? && (forall k :: k in r.fields ==> r.fields[k].Str?) ==>
              exists m :: IsMapOf(m, r.fields) && Extract(j) == Extracted(Dict(m), true)
    ensures r.Array? && (forall i :: 0 <= i < |r.items| ==> r.items[i].Str?) ==>
              exists v :: IsVectorOf(v, r.items) && Extract(j) == Extracted(Vector(v), true)
  {
    assert Entry(j, "result") == Some(r);
    if r.Object? && (forall k :: k in r.fields ==> r.fields[k].Str?) {
      assert IsMapOf(StringEntries(r.fields), r.fields);
    }
    if r.Array? && (forall i :: 0 <= i < |r.items| ==> r.items[i].Str?) {
      var v := seq(|r.items|, i requires 0 <= i < |r.items| && r.items[i].Str? => r.items[i].s);
      ItemsAreStrings(r.items, v);
      assert IsVectorOf(v, r.items);
    }
  }

  ghost predicate IsMapOf(m: map<string, string>, fields: map<string, Json>) {
    m.Keys == fields.Keys && forall k :: k in m ==> fields[k] == Str(m[k])
  }

  ghost predicate IsVectorOf(v: seq<string>, items: seq<Json>) {
    |v| == |items| && forall i :: 0 <= i < |v| ==> items[i] == Str(v[i])
  }

  /** A larger number is reduced to 32 bits. */
  lemma NumberIsReduced(j: Json, n: int)
    requires SaysResult(j, Int(n))
    ensures exists m :: -0x8000_0000 <= m < 0x8000_0000 && (m - n) % 0x1_0000_0000 == 0
                        && Extract(j) == Extracted(Number(m), true)
  {
    assert Entry(j, "result") == Some(Int(n));
    var m := ToInt(n);
    assert Extract(j) == Extracted(Number(m), true);
    assert m - n == -0x1_0000_0000 * ((n + 0x8000_0000) / 0x1_0000_0000);
  }

  lemma ErrorIsExtracted(j: Json, text: string)
    requires SaysError(j, text)
    ensures Extract(j) == Extracted(ErrorText(text), false)
  {
    assert Entry(j, "result") == None && Entry(j, "error") == Some(Str(text));
  }

  lemma EntryAt(j: Json, key: string)
    requires j.Object?
    ensures StringEntry(StringEntries(j.fields), key) == StringAt(j, key)
    ensures Lacks(j, key) <==> Entry(j, key) == None
    ensures !Lacks(j, key) ==> key in j.fields && Entry(j, key) == Some(j.fields[key])
  {
  }

  lemma SameInfo(items: seq<Json>, m: map<string, string>, n: map<string, string>)
    requires IsInfo(items, m) && IsInfo(items, n)
    ensures m == n
  {
    forall k
      ensures k in m <==> k in n
      ensures k in m ==> m[k] == n[k]
    {
      assert LastWith(items, k) == LastWith(items, k);
    }
  }

  lemma InfoIsExtracted(j: Json)
    requires j.Object? && !Lacks(j, "error-info")
    ensures var items := if j.fields["error-info"].Array? then j.fields["error-info"].items else [];
            && (EntriesAreStrings(items) ==>
                  InfoOf(j).Some? && InfoOf(j).value.Some? && IsInfo(items, InfoOf(j).value.value))
            && (!EntriesAreStrings(items) ==> InfoOf(j) == None)
  {
    EntryAt(j, "error-info");
    var items := ItemsOf(j.fields["error-info"]);
    MergedIffStrings(items, map[]);
    if MergedEntries(items, map[]).Some? {
      var m := MergedEntries(items, map[]).value;
      forall k
        ensures if k in m then LastWith(items, k) == Some(Str(m[k])) else LastWith(items, k) == None
      {
        MergedEntryIs(items, map[], m, k);
      }
    }
  }

  lemma OneErrorIsExtracted(j: Json, e: ErrorFields)
    requires IsError(j, e)
    ensures ErrorOf(j) == Some(e)
  {
    EntryAt(j, "error-tag");
    EntryAt(j, "error-type");
    EntryAt(j, "error-severity");
    EntryAt(j, "error-app-tag");
    EntryAt(j, "error-path");
    EntryAt(j, "error-message");
    EntryAt(j, "error-info");
    if !Lacks(j, "error-info") {
      InfoIsExtracted(j);
      var items := if j.fields["error-info"].Array? then j.fields["error-info"].items else [];
      SameInfo(items, InfoOf(j).value.value, e.info.value);
    }
  }

  /** The whole list, in order. */
  lemma ErrorsAreExtracted(j: Json, items: seq<Json>, es: seq<ErrorFields>)
    requires SaysErrors(j, items, es)
    ensures Extract(j) == Extracted(Errors(es), true)
  {
    forall i | 0 <= i < |items|
      ensures ErrorOf(items[i]) == Some(es[i])
    {
      OneErrorIsExtracted(items[i], es[i]);
    }
    assert ErrorsOf(items).value == es;
    var l := j.fields["mgmterrorlist"];
    assert Entry(l, "error-list") == Some(Array(items));
    assert Entry(j, "result") == None && Entry(j, "error") == None && Entry(j, "mgmterrorlist") == Some(l);
  }

  // ----- which document a request gets

  function Documents(input: seq<Item>): seq<Json> {
    if input == [] then []
    else if input[0].Doc? then [input[0].j] + Documents(input[1..])
    else Documents(input[1..])
  }

  function WrittenBefore(sends: seq<Sending>, i: nat): nat
    requires i <= |sends|
  {
    if i == 0 then 0 else WrittenBefore(sends, i - 1) + if sends[i - 1].Written? then 1 else 0
  }

  lemma {:induction false} FirstDocument(input: seq<Item>)
    ensures Receive(input).0 == if Documents(input) == [] then None else Some(Documents(input)[0])
    ensures Documents(Receive(input).1) == if Documents(input) == [] then [] else Documents(input)[1..]
  {
    if input != [] && !input[0].Doc? {
      FirstDocument(input[1..]);
    }
  }

  lemma {:induction false} WrittenShift(sends: seq<Sending>, i: nat)
    requires 0 < i <= |sends|
    ensures WrittenBefore(sends, i) == (if sends[0].Written? then 1 else 0) + WrittenBefore(sends[1..], i - 1)
  {
    if i > 1 {
      WrittenShift(sends, i - 1);
    }
  }

  /** The written requests get the documents of the stream one after the other, garbage left out. */
  lemma {:induction false} ReceivedInOrder(c: Connection, sends: seq<Sending>, i: nat)
    requires i < |sends|
    ensures |Received(c, sends)| == |sends|
    ensures var n, docs := WrittenBefore(sends, i), Documents(c.input);
            Received(c, sends)[i] == if sends[i].Written? && n < |docs| then Some(docs[n]) else None
    decreases |sends|
  {
    FirstDocument(c.input);
    var d := Request(c, sends[0]).0;
    if |sends| > 1 {
      ReceivedInOrder(d, sends[1..], if i == 0 then 0 else i - 1);
    }
    if i > 0 {
      WrittenShift(sends, i);
    }
  }

  /** Every request counts that has its arguments, also one that cannot be written. */
  lemma EveryRequestCounts(c: Connection)
    requires c.reqId + 1 < ID_RANGE
    ensures Send(c, Rejected) == c
    ensures Send(c, NotWritten).reqId == c.reqId + 1 && Send(c, Written).reqId == c.reqId + 1
    ensures RequestNumber([Rejected], 1) == 0 && RequestNumber([NotWritten], 1) == RequestNumber([Written], 1) == 1
  {
  }

  // ----- the right response

  /** The document says something that can be read. */
  ghost predicate IsReadable(j: Json) {
    (exists text :: SaysError(j, text)) || HasReadableResult(j) || HasReadableErrors(j)
  }

  ghost predicate HasReadableResult(j: Json) {
    exists r :: SaysResult(j, r)
                && (r.Object? ==> forall k :: k in r.fields ==> r.fields[k].Str?)
                && (r.Array? ==> forall i :: 0 <= i < |r.items| ==> r.items[i].Str?)
  }

  ghost predicate HasReadableErrors(j: Json) {
    exists items, es :: SaysErrors(j, items, es)
  }

  predicate SaysNothing(j: Json) {
    j.Object? ==> Lacks(j, "result") && Lacks(j, "error") && Lacks(j, "mgmterrorlist")
  }

  lemma {:induction false} StringItemsIff(items: seq<Json>)
    ensures StringItems(items).Some? <==> forall i :: 0 <= i < |items| ==> items[i].Str?
  {
    if items != [] {
      StringItemsIff(items[1..]);
      assert forall i :: 0 <= i < |items| - 1 ==> items[1..][i] == items[i + 1];
    }
  }

  lemma ReadableResultIff(j: Json, r: Json)
    requires SaysResult(j, r)
    ensures Extract(j) == Failed || (Extract(j).Extracted? && Extract(j).good)
    ensures HasReadableResult(j) <==> Extract(j).Extracted?
  {
    assert Entry(j, "result") == Some(r);
    if r.Array? {
      StringItemsIff(r.items);
    }
  }

  lemma ErrorIsError(j: Json)
    requires ErrorOf(j).Some?
    ensures IsError(j, ErrorOf(j).value)
  {
    if !Lacks(j, "error-info") {
      InfoIsExtracted(j);
    } else {
      assert Entry(j, "error-info") == None;
    }
  }

  lemma ReadableErrorsIff(j: Json)
    requires Lacks(j, "result") && Lacks(j, "error") && !Lacks(j, "mgmterrorlist")
    ensures Extract(j) == Failed || (Extract(j).Extracted? && Extract(j).good)
    ensures HasReadableErrors(j) <==> Extract(j).Extracted?
  {
    var l := j.fields["mgmterrorlist"];
    assert Entry(j, "result") == None && Entry(j, "error") == None && Entry(j, "mgmterrorlist") == Some(l);
    if items, es :| SaysErrors(j, items, es) {
      ErrorsAreExtracted(j, items, es);
    }
    if Extract(j).Extracted? {
      var items, es := l.fields["error-list"].items, ErrorList(l).value;
      forall i | 0 <= i < |items|
        ensures IsError(items[i], es[i])
      {
        ErrorIsError(items[i]);
      }
      assert SaysErrors(j, items, es);
    }
  }

  /** What can be extracted is what can be read, and nothing; the status is good for results and lists of errors. */
  lemma ExtractedIff(j: Json)
    ensures Extract(j).Extracted? <==> IsReadable(j) || SaysNothing(j)
    ensures Extract(j).Extracted? && Extract(j).good <==> HasReadableResult(j) || HasReadableErrors(j)
  {
    if j.Object? {
      if !Lacks(j, "result") {
        ReadableResultIff(j, j.fields["result"]);
      } else if !Lacks(j, "error") {
        assert Entry(j, "result") == None && Entry(j, "error") == Some(j.fields["error"]);
        if j.fields["error"].Str? {
          assert SaysError(j, j.fields["error"].s);
        }
      } else if !Lacks(j, "mgmterrorlist") {
        ReadableErrorsIff(j);
      }
    }
  }

  /** The document carries this number as its id. */
  predicate HasId(j: Json, n: int) {
    j.Object? && "id" in j.fields && j.fields["id"] == Int(n)
  }

  /**
    A document that a request receives is delivered exactly when it carries the number of the request, as far as 32 bits
    tell, and says something that can be read, or nothing at all; or when it has no integer id and a result or a list
    of errors that can be read.
  */
  lemma DeliveredIff(c: Connection, sends: seq<Sending>, i: nat, j: Json, n: nat)
    requires i < |sends| && c.reqId < ID_RANGE && n == (c.reqId + RequestNumber(sends, i + 1)) % ID_RANGE
    requires sends[i].Written? && WrittenBefore(sends, i) < |Documents(c.input)|
    requires j == Documents(c.input)[WrittenBefore(sends, i)]
    ensures |Run(c, sends)| == |sends|
    ensures Run(c, sends)[i] == None || Run(c, sends)[i] == Some(Delivery(n, j))
    ensures Run(c, sends)[i].Some? <==>
              if exists m :: HasId(j, m) then
                (exists m :: HasId(j, m) && m % 0x1_0000_0000 == n) && (IsReadable(j) || SaysNothing(j))
              else HasReadableResult(j) || HasReadableErrors(j)
  {
    ReceivedInOrder(c, sends, i);
    ReceivedIsDelivered(c, sends, i, j, n);
    ExtractedIff(j);
    if HasIntegerId(j) {
      assert HasId(j, j.fields["id"].n);
    }
  }

  /** In particular, a readable document that carries the number of the request is delivered. */
  lemma RightResponseIsDelivered(c: Connection, sends: seq<Sending>, i: nat, j: Json, n: nat)
    requires i < |sends| && c.reqId < ID_RANGE && n == (c.reqId + RequestNumber(sends, i + 1)) % ID_RANGE
    requires sends[i].Written? && WrittenBefore(sends, i) < |Documents(c.input)|
    requires j == Documents(c.input)[WrittenBefore(sends, i)] && HasId(j, n) && IsReadable(j)
    ensures |Run(c, sends)| == |sends| && Run(c, sends)[i] == Some(Delivery(n, j))
  {
    assert n % 0x1_0000_0000 == n;
    ReceivedInOrder(c, sends, i);
    ReceivedIsDelivered(c, sends, i, j, n);
    ReadableIsAccepted(j, n);
  }

  lemma ReadableIsAccepted(j: Json, n: nat)
    requires HasId(j, n) && n < 0x1_0000_0000 && IsReadable(j)
    ensures Accepted(j, n)
  {
    ExtractedIff(j);
  }

  lemma {:induction false} ReceivedIsDelivered(c: Connection, sends: seq<Sending>, i: nat, j: Json, n: nat)
    requires i < |sends| && c.reqId < ID_RANGE && n == (c.reqId + RequestNumber(sends, i + 1)) % ID_RANGE
    requires |Received(c, sends)| == |sends| && Received(c, sends)[i] == Some(j)
    ensures |Run(c, sends)| == |sends|
    ensures Run(c, sends)[i] == if Accepted(j, n) then Some(Delivery(n, j)) else None
    decreases |sends|
  {
    RunLength(c, sends);
    RequestNumberShift(sends, i + 1);
    if i > 0 {
      var d := Request(c, sends[0]).0;
      WrapAround(c.reqId, if sends[0].Rejected? then 0 else 1, RequestNumber(sends[1..], i));
      ReceivedIsDelivered(d, sends[1..], i - 1, j, n);
    } else {
      assert RequestNumber(sends[1..], 0) == 0;
    }
  }

  // ----- what the caller sees

  /** The text of the server, with a newline behind it. */
  lemma CallerSeesError(j: Json, text: string, n: nat, kind: Kind, a: Option<Response>, error: ConfigdError?)
    requires SaysError(j, text) && Outcome(Some(Delivery(n, j)), Written, kind, a, error)
    ensures a == None
    ensures error != null ==> Val(error.text) == Some(text + "\n") && !error.isMgmt && error.errs.entries == []
  {
    ErrorIsExtracted(j, text);
  }

  /** All errors of the server in order; the text is that of the only message, or the lines of all. */
  lemma CallerSeesErrors(j: Json, items: seq<Json>, es: seq<ErrorFields>, n: nat, kind: Kind, a: Option<Response>,
                         error: ConfigdError?)
    requires SaysErrors(j, items, es) && Outcome(Some(Delivery(n, j)), Written, kind, a, error)
    ensures a == None
    ensures error != null ==> error.isMgmt && Views(error.errs.entries) == es
    ensures error != null && |es| == 1 ==> Val(error.text) == es[0].message
    ensures error != null && |es| > 1 ==> HaveMessages(es) && Val(error.text) == Some(Merged(Messages(es)))
  {
    ErrorsAreExtracted(j, items, es);
  }

  /** The result, if it is of the kind that was asked for. */
  lemma CallerSeesResult(j: Json, r: Json, n: nat, kind: Kind, a: Option<Response>, error: ConfigdError?)
    requires SaysResult(j, r) && Outcome(Some(Delivery(n, j)), Written, kind, a, error)
    ensures r.Str? ==> if kind == StringKind then IsText(a, r.s) else a == None
    ensures r.Int? && -0x8000_0000 <= r.n < 0x8000_0000 ==>
              a == if kind == IntKind then Some(IntResponse(r.n)) else None
    ensures r == True ==> a == if kind == IntKind then Some(IntResponse(1)) else None
    ensures r == False ==> a == if kind == IntKind then Some(IntResponse(0)) else None
    ensures r.Array? && (forall i :: 0 <= i < |r.items| ==> r.items[i].Str?) ==>
              if kind == VectorKind then IsVector(a, r.items) else a == None
    ensures r.Object? && (forall k :: k in r.fields ==> r.fields[k].Str?) ==>
              if kind == MapKind then IsMap(a, r.fields) else a == None
    ensures (r in {True, False} || r.Int? || r.Str?) && error != null ==> Val(error.text) == None && !error.isMgmt
  {
    assert Entry(j, "result") == Some(r);
    ResultIsExtracted(j, r);
  }

  ghost predicate IsText(a: Option<Response>, s: string) {
    a.Some? && a.value.StringResponse? && Val(a.value.s) == Some(s)
  }

  ghost predicate IsVector(a: Option<Response>, items: seq<Json>) {
    a.Some? && a.value.VectorResponse? && a.value.v.Ptr? && IsVectorOf(a.value.v.val, items)
  }

  ghost predicate IsMap(a: Option<Response>, fields: map<string, Json>) {
    a.Some? && a.value.MapResponse? && a.value.m.Ptr? && IsMapOf(a.value.m.val, fields)
  }

  /** Without a delivery, what went wrong. */
  lemma CallerSeesFailure(s: Sending, kind: Kind, a: Option<Response>, error: ConfigdError?)
    requires Outcome(None, s, kind, a, error)
    ensures a == None
    ensures error != null && s == Written ==> Val(error.text) == Some("Error receiving response")
    ensures error != null && s != Written ==> Val(error.text) == Some("Error sending request")
  {
  }
}
