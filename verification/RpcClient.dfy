/**
  Receiving a response, object by object: what is allocated, who owns it in the end, and what is
  freed. The live objects are a ghost multiset, so that an object with two owners or a second free
  could not go unnoticed.
*/
module RpcClient {
  import opened Options
  import opened Rpc

  // ----- the heap

  datatype Ptr<+T> = NullPtr | Ptr(id: nat, val: T)

  ghost function Ids<T>(p: Ptr<T>): multiset<nat> {
    if p.NullPtr? then multiset{} else multiset{p.id}
  }

  function Val<T>(p: Ptr<T>): Option<T> {
    if p.NullPtr? then None else Some(p.val)
  }

  class Heap {
    ghost var live: multiset<nat>
    var next: nat

    /** Every object is live at most once. */
    ghost predicate Valid()
      reads this
    {
      forall p :: p in live ==> p < next && live[p] == 1
    }

    constructor ()
      ensures Valid() && live == multiset{}
    {
      live, next := multiset{}, 0;
    }

    method Alloc<T>(val: T) returns (p: Ptr<T>)
      requires Valid()
      modifies this
      ensures Valid() && p.Ptr? && p.val == val && p.id !in old(live) && live == old(live) + Ids(p)
    {
      p := Ptr(next, val);
      live, next := live + multiset{next}, next + 1;
    }

    /** `strdup` of a string that may be missing. */
    method Dup(s: Option<string>) returns (p: Ptr<string>)
      requires Valid()
      modifies this
      ensures Valid() && Val(p) == s && live == old(live) + Ids(p)
    {
      if s.None? {
        p := NullPtr;
      } else {
        p := Alloc(s.value);
      }
    }

    /** Freeing needs a live object or null; `keep` is what stays alive. */
    method Free<T>(p: Ptr<T>, ghost keep: multiset<nat>)
      requires Valid() && live == keep + Ids(p)
      modifies this
      ensures Valid() && live == keep
    {
      forall q | q in keep
        ensures q < next && keep[q] == 1
      {
        assert live[q] == keep[q] + Ids(p)[q];
      }
      live := keep;
    }
  }

  // ----- errors

  datatype MgmtError = MgmtError(self: Ptr<()>, tag: Ptr<string>, kind: Ptr<string>, severity: Ptr<string>,
                                 appTag: Ptr<string>, path: Ptr<string>, message: Ptr<string>,
                                 info: Ptr<map<string, string>>)

  ghost function StringIds(e: MgmtError): multiset<nat> {
    Ids(e.tag) + Ids(e.kind) + Ids(e.severity) + Ids(e.appTag) + Ids(e.path) + Ids(e.message)
  }

  ghost function ErrorIds(e: MgmtError): multiset<nat> {
    StringIds(e) + Ids(e.info) + Ids(e.self)
  }

  function View(e: MgmtError): ErrorFields {
    ErrorFields(Val(e.tag), Val(e.kind), Val(e.severity), Val(e.appTag), Val(e.path), Val(e.message), Val(e.info))
  }

  /** The array of pointers and the errors it holds. */
  datatype ErrList = ErrList(array_: Ptr<()>, entries: seq<MgmtError>)

  const NO_ERRORS := ErrList(NullPtr, [])

  ghost function EntryIds(es: seq<MgmtError>): multiset<nat> {
    if es == [] then multiset{} else ErrorIds(es[0]) + EntryIds(es[1..])
  }

  ghost function ListIds(l: ErrList): multiset<nat> {
    Ids(l.array_) + EntryIds(l.entries)
  }

  function Views(es: seq<MgmtError>): (r: seq<ErrorFields>)
    ensures |r| == |es|
  {
    seq(|es|, i requires 0 <= i < |es| => View(es[i]))
  }

  lemma {:induction false} EntryIdsAppend(es: seq<MgmtError>, e: MgmtError)
    ensures EntryIds(es + [e]) == EntryIds(es) + ErrorIds(e)
    decreases |es|
  {
    if es == [] {
      assert es + [e] == [e] && [e][1..] == [];
    } else {
      assert (es + [e])[1..] == es[1..] + [e];
      EntryIdsAppend(es[1..], e);
    }
  }

  lemma EntryStep(es: seq<MgmtError>, i: nat)
    requires i < |es|
    ensures EntryIds(es[i..]) == ErrorIds(es[i]) + EntryIds(es[i + 1..])
  {
    assert es[i..][1..] == es[i + 1..];
  }

  lemma Nested(k: multiset<nat>, a: multiset<nat>, b: multiset<nat>)
    ensures k + (a + b) == k + a + b
  {
  }

  lemma TakeOut(k: multiset<nat>, a: multiset<nat>, b: multiset<nat>)
    ensures k + (a + b) == (k + b) + a
  {
  }

  lemma TakeOutOfThree(k: multiset<nat>, a: multiset<nat>, b: multiset<nat>, c: multiset<nat>)
    ensures k + (a + b + c) == ((k + c) + b) + a
  {
  }

  /** The strings, with one in front. */
  lemma StringsInOrder(k: multiset<nat>, a: multiset<nat>, b: multiset<nat>, c: multiset<nat>, d: multiset<nat>,
                       e: multiset<nat>, f: multiset<nat>)
    ensures k + (a + b + c + d + e + f) == k + f + e + d + c + b + a
    ensures k + (a + b + c + d + e + f) == k + a + b + c + d + e + f
  {
  }

  /** `configd_mgmt_error_free`. */
  method FreeFields(h: Heap, e: MgmtError, ghost keep: multiset<nat>)
    requires h.Valid() && h.live == (keep + Ids(e.info)) + StringIds(e)
    modifies h
    ensures h.Valid() && h.live == keep
  {
    ghost var k := keep + Ids(e.info);
    StringsInOrder(k, Ids(e.tag), Ids(e.kind), Ids(e.severity), Ids(e.appTag), Ids(e.path), Ids(e.message));
    h.Free(e.tag, k + Ids(e.message) + Ids(e.path) + Ids(e.appTag) + Ids(e.severity) + Ids(e.kind));
    h.Free(e.kind, k + Ids(e.message) + Ids(e.path) + Ids(e.appTag) + Ids(e.severity));
    h.Free(e.severity, k + Ids(e.message) + Ids(e.path) + Ids(e.appTag));
    h.Free(e.appTag, k + Ids(e.message) + Ids(e.path));
    h.Free(e.path, k + Ids(e.message));
    h.Free(e.message, k);
    h.Free(e.info, keep);
  }

  /** `mgmt_err_list_free`; afterwards the list is empty. */
  method FreeList(h: Heap, l: ErrList, ghost keep: multiset<nat>)
    requires h.Valid() && h.live == keep + ListIds(l)
    modifies h
    ensures h.Valid() && h.live == keep
  {
    ghost var k := keep + Ids(l.array_);
    Nested(keep, Ids(l.array_), EntryIds(l.entries));
    var i := 0;
    assert l.entries[0..] == l.entries;
    while i < |l.entries|
      invariant 0 <= i <= |l.entries| && h.Valid()
      invariant h.live == k + EntryIds(l.entries[i..])
    {
      EntryStep(l.entries, i);
      FreeEntry(h, l.entries[i], k + EntryIds(l.entries[i + 1..]), k, EntryIds(l.entries[i + 1..]));
      i := i + 1;
    }
    h.Free(l.array_, keep);
  }

  method FreeEntry(h: Heap, e: MgmtError, ghost keep: multiset<nat>, ghost k: multiset<nat>, ghost rest: multiset<nat>)
    requires h.Valid() && h.live == k + (ErrorIds(e) + rest) && keep == k + rest
    modifies h
    ensures h.Valid() && h.live == keep
  {
    TakeOut(k, ErrorIds(e), rest);
    TakeOutOfThree(keep, StringIds(e), Ids(e.info), Ids(e.self));
    FreeFields(h, e, keep + Ids(e.self));
    h.Free(e.self, keep);
  }

  /** `configd_mgmt_error_set_from_maps`: duplicates the fields and takes over the info. */
  method SetFromMaps(h: Heap, self: Ptr<()>, fields: map<string, string>, info: Ptr<map<string, string>>)
      returns (e: MgmtError)
    requires h.Valid()
    modifies h
    ensures h.Valid() && e.self == self && e.info == info
    ensures View(e) == FieldsFrom(fields, Val(info))
    ensures h.live == old(h.live) + StringIds(e)
  {
    var tag := h.Dup(StringEntry(fields, "error-tag"));
    var kind := h.Dup(StringEntry(fields, "error-type"));
    var severity := h.Dup(StringEntry(fields, "error-severity"));
    var appTag := h.Dup(StringEntry(fields, "error-app-tag"));
    var path := h.Dup(StringEntry(fields, "error-path"));
    var message := h.Dup(StringEntry(fields, "error-message"));
    e := MgmtError(self, tag, kind, severity, appTag, path, message, info);
    StringsInOrder(old(h.live), Ids(tag), Ids(kind), Ids(severity), Ids(appTag), Ids(path), Ids(message));
  }

  // ----- reading error lists

  /** `jarray_to_map`. */
  method ArrayToMap(h: Heap, items: seq<Json>) returns (m: Ptr<map<string, string>>)
    requires h.Valid()
    modifies h
    ensures h.Valid() && Val(m) == MergedEntries(items, map[]) && h.live == old(h.live) + Ids(m)
  {
    var entries: map<string, string> := map[];
    var i := 0;
    assert items[0..] == items;
    while i < |items|
      invariant 0 <= i <= |items| && h.Valid() && h.live == old(h.live)
      invariant MergedEntries(items[i..], entries) == MergedEntries(items, map[])
    {
      assert items[i..][1..] == items[i + 1..];
      if items[i].Object? {
        if !AllStrings(items[i].fields) {
          return NullPtr;
        }
        entries := entries + StringEntries(items[i].fields);
      }
      i := i + 1;
    }
    m := h.Alloc(entries);
  }

  /** `extract_mgmt_error_info_as_map`. */
  method ReadInfo(h: Heap, j: Json) returns (ok: bool, info: Ptr<map<string, string>>)
    requires h.Valid()
    modifies h
    ensures h.Valid() && h.live == old(h.live) + Ids(info)
    ensures if ok then InfoOf(j) == Some(Val(info)) else InfoOf(j).None? && info.NullPtr?
  {
    ok, info := true, NullPtr;
    var jinfo := Entry(j, "error-info");
    if jinfo.Some? {
      info := ArrayToMap(h, ItemsOf(jinfo.value));
      ok := info.Ptr?;
    }
  }

  lemma FieldsLast(k: multiset<nat>, f: multiset<nat>, i: multiset<nat>, s: multiset<nat>, e: multiset<nat>)
    ensures k + f + i + s + e == k + (e + i + s) + f
  {
  }

  /** The new error owns the info; the fields are copied and freed. */
  method BuildError(h: Heap, fields: Ptr<map<string, string>>, info: Ptr<map<string, string>>,
                    ghost keep: multiset<nat>)
    returns (e: MgmtError)
    requires h.Valid() && fields.Ptr? && h.live == keep + Ids(fields) + Ids(info)
    modifies h
    ensures h.Valid() && View(e) == FieldsFrom(fields.val, Val(info))
    ensures h.live == keep + ErrorIds(e)
  {
    var self := h.Alloc(());
    e := SetFromMaps(h, self, fields.val, info);
    FieldsLast(keep, Ids(fields), Ids(info), Ids(self), StringIds(e));
    h.Free(fields, keep + ErrorIds(e));
  }

  /** One round of the loop over the error list; on failure nothing of it stays. */
  method ReadError(h: Heap, j: Json) returns (ok: bool, e: MgmtError)
    requires h.Valid()
    modifies h
    ensures h.Valid()
    ensures ok ==> ErrorOf(j) == Some(View(e)) && h.live == old(h.live) + ErrorIds(e)
    ensures !ok ==> ErrorOf(j).None? && h.live == old(h.live)
  {
    e := MgmtError(NullPtr, NullPtr, NullPtr, NullPtr, NullPtr, NullPtr, NullPtr, NullPtr);
    if !j.Object? {
      return false, e;
    }
    var fields := h.Alloc(StringEntries(j.fields));
    var good, info := ReadInfo(h, j);
    if good {
      e := BuildError(h, fields, info, old(h.live));
    } else {
      h.Free(fields, old(h.live));
    }
    ok := good;
  }

  lemma Push(k: multiset<nat>, a: multiset<nat>, b: multiset<nat>, c: multiset<nat>)
    ensures k + (a + b) + c == k + (a + (b + c))
  {
  }

  lemma Extended(l: ErrList, e: MgmtError, keep: multiset<nat>)
    ensures keep + ListIds(l) + ErrorIds(e) == keep + ListIds(ErrList(l.array_, l.entries + [e]))
  {
    EntryIdsAppend(l.entries, e);
    Push(keep, Ids(l.array_), EntryIds(l.entries), ErrorIds(e));
  }

  /** The errors are those of the first items. */
  ghost predicate AreFirst(items: seq<Json>, es: seq<MgmtError>) {
    |es| <= |items| && forall k :: 0 <= k < |es| ==> ErrorOf(items[k]) == Some(View(es[k]))
  }

  lemma OneMore(items: seq<Json>, es: seq<MgmtError>, e: MgmtError)
    requires AreFirst(items, es) && |es| < |items| && ErrorOf(items[|es|]) == Some(View(e))
    ensures AreFirst(items, es + [e])
  {
  }

  lemma AllRead(items: seq<Json>, es: seq<MgmtError>)
    requires AreFirst(items, es) && |es| == |items|
    ensures ErrorsOf(items) == Some(Views(es))
  {
    assert ErrorsOf(items).value == Views(es);
  }

  lemma NotAllRead(items: seq<Json>, i: nat)
    requires i < |items| && ErrorOf(items[i]).None?
    ensures ErrorsOf(items).None?
  {
  }

  lemma NothingListed(list: Ptr<()>)
    ensures ListIds(ErrList(list, [])) == Ids(list)
  {
  }

  /** The list with one more error, or no list any more. */
  method AddError(h: Heap, l: ErrList, items: seq<Json>, ghost keep: multiset<nat>) returns (ok: bool, m: ErrList)
    requires h.Valid() && h.live == keep + ListIds(l)
    requires AreFirst(items, l.entries) && |l.entries| < |items|
    modifies h
    ensures h.Valid() && h.live == keep + ListIds(m)
    ensures ok ==> AreFirst(items, m.entries) && |m.entries| == |l.entries| + 1 && m.array_ == l.array_
    ensures !ok ==> ErrorsOf(items).None? && m == NO_ERRORS
  {
    var good, e := ReadError(h, items[|l.entries|]);
    ok := good;
    if good {
      Extended(l, e, keep);
      OneMore(items, l.entries, e);
      m := ErrList(l.array_, l.entries + [e]);
    } else {
      NotAllRead(items, |l.entries|);
      FreeList(h, l, keep);
      NothingListed(NullPtr);
      m := NO_ERRORS;
    }
  }

  /** `process_errlist_array`: the whole list in order, or nothing at all. */
  method ReadErrors(h: Heap, items: seq<Json>) returns (ok: bool, l: ErrList)
    requires h.Valid()
    modifies h
    ensures h.Valid() && h.live == old(h.live) + ListIds(l)
    ensures ok ==> l.array_.Ptr? && ErrorsOf(items) == Some(Views(l.entries))
    ensures !ok ==> ErrorsOf(items).None? && l == NO_ERRORS
  {
    var list := h.Alloc(());
    NothingListed(list);
    l := ErrList(list, []);
    ok := true;
    ghost var keep := old(h.live);
    while |l.entries| < |items|
      invariant h.Valid() && h.live == keep + ListIds(l)
      invariant ok && l.array_.Ptr? && AreFirst(items, l.entries)
      decreases |items| - |l.entries|
    {
      ok, l := AddError(h, l, items, keep);
      if !ok {
        return;
      }
    }
    AllRead(items, l.entries);
  }

  // ----- responses

  /** The type and the matching member of the union. */
  datatype Response =
    | IntResponse(n: int) | StringResponse(s: Ptr<string>) | VectorResponse(v: Ptr<seq<string>>)
    | MapResponse(m: Ptr<map<string, string>>) | ErrorResponse(text: Ptr<string>) | MgmtErrorResponse(errs: ErrList)

  ghost function ResponseIds(r: Response): multiset<nat> {
    match r
    case IntResponse(_) => multiset{}
    case StringResponse(s) => Ids(s)
    case VectorResponse(v) => Ids(v)
    case MapResponse(m) => Ids(m)
    case ErrorResponse(text) => Ids(text)
    case MgmtErrorResponse(errs) => ListIds(errs)
  }

  /** Any type at all, with a member that is all zero. */
  predicate Zeroed(r: Response) {
    match r
    case IntResponse(n) => n == 0
    case StringResponse(s) => s.NullPtr?
    case VectorResponse(v) => v.NullPtr?
    case MapResponse(m) => m.NullPtr?
    case ErrorResponse(text) => text.NullPtr?
    case MgmtErrorResponse(errs) => errs == NO_ERRORS
  }

  predicate Holds(r: Response, c: Content) {
    match c
    case Nothing => Zeroed(r)
    case Number(n) => r == IntResponse(n)
    case Text(s) => r.StringResponse? && Val(r.s) == Some(s)
    case Vector(v) => r.VectorResponse? && Val(r.v) == Some(v)
    case Dict(m) => r.MapResponse? && Val(r.m) == Some(m)
    case ErrorText(s) => r.ErrorResponse? && Val(r.text) == Some(s)
    case Errors(es) => r.MgmtErrorResponse? && r.errs.array_.Ptr? && Views(r.errs.entries) == es
  }

  lemma ZeroedOwnsNothing(r: Response)
    requires Zeroed(r)
    ensures ResponseIds(r) == multiset{}
  {
  }

  /** `response_free`. */
  method FreeResponse(h: Heap, r: Response, ghost keep: multiset<nat>)
    requires h.Valid() && h.live == keep + ResponseIds(r)
    modifies h
    ensures h.Valid() && h.live == keep
  {
    match r
    case IntResponse(_) =>
    case StringResponse(s) => h.Free(s, keep);
    case VectorResponse(v) => h.Free(v, keep);
    case MapResponse(m) => h.Free(m, keep);
    case ErrorResponse(text) => h.Free(text, keep);
    case MgmtErrorResponse(errs) => FreeList(h, errs, keep);
  }

  /** `jarray_to_vector`. */
  method ArrayToVector(h: Heap, items: seq<Json>) returns (v: Ptr<seq<string>>)
    requires h.Valid()
    modifies h
    ensures h.Valid() && Val(v) == StringItems(items) && h.live == old(h.live) + Ids(v)
  {
    var strings := [];
    var i := 0;
    while i < |items|
      invariant 0 <= i <= |items| && h.Valid() && h.live == old(h.live)
      invariant |strings| == i && forall k :: 0 <= k < i ==> items[k] == Str(strings[k])
    {
      if !items[i].Str? {
        ItemIsNoString(items, i);
        return NullPtr;
      }
      strings := strings + [items[i].s];
      i := i + 1;
    }
    ItemsAreStrings(items, strings);
    v := h.Alloc(strings);
  }

  lemma {:induction false} ItemIsNoString(items: seq<Json>, i: nat)
    requires i < |items| && !items[i].Str?
    ensures StringItems(items).None?
  {
    if i > 0 {
      ItemIsNoString(items[1..], i - 1);
    }
  }

  lemma {:induction false} ItemsAreStrings(items: seq<Json>, strings: seq<string>)
    requires |strings| == |items| && forall k :: 0 <= k < |items| ==> items[k] == Str(strings[k])
    ensures StringItems(items) == Some(strings)
  {
    if items != [] {
      ItemsAreStrings(items[1..], strings[1..]);
      assert [strings[0]] + strings[1..] == strings;
    }
  }

  /** `jobj_to_map`, when all entries have to be strings. */
  method ObjectToMap(h: Heap, fields: map<string, Json>) returns (m: Ptr<map<string, string>>)
    requires h.Valid()
    modifies h
    ensures h.Valid() && h.live == old(h.live) + Ids(m)
    ensures Val(m) == if AllStrings(fields) then Some(StringEntries(fields)) else None
  {
    m := NullPtr;
    if AllStrings(fields) {
      m := h.Alloc(StringEntries(fields));
    }
  }

  /** `extract_result`; `before` is the cleared response. */
  method ExtractResult(h: Heap, j: Json, before: Response) returns (ok: bool, r: Response)
    requires h.Valid() && Zeroed(before)
    modifies h
    ensures h.Valid() && h.live == old(h.live) + ResponseIds(r)
    ensures ok <==> ResultOf(j).Some?
    ensures if ok then Holds(r, ResultOf(j).value) else Zeroed(r)
  {
    ok, r := true, before;
    match j
    case True => r := IntResponse(1);
    case False => r := IntResponse(0);
    case Int(n) => r := IntResponse(ToInt(n));
    case Str(s) =>
      var p := h.Alloc(s);
      r := StringResponse(p);
    case Array(items) =>
      var v := ArrayToVector(h, items);
      ok, r := v.Ptr?, VectorResponse(v);
    case Object(fields) =>
      var m := ObjectToMap(h, fields);
      ok, r := m.Ptr?, MapResponse(m);
    case _ => ZeroedOwnsNothing(before);
  }

  /** `extract_mgmt_error_list`. */
  method ExtractErrors(h: Heap, j: Json) returns (ok: bool, r: Response)
    requires h.Valid()
    modifies h
    ensures h.Valid() && h.live == old(h.live) + ResponseIds(r)
    ensures ok <==> ErrorList(j).Some?
    ensures if ok then Holds(r, Errors(ErrorList(j).value)) else r == MgmtErrorResponse(NO_ERRORS)
  {
    ok, r := false, MgmtErrorResponse(NO_ERRORS);
    ZeroedOwnsNothing(r);
    var list := Entry(j, "error-list");
    if list.Some? && list.value.Array? && list.value.items != [] {
      var good, l := ReadErrors(h, list.value.items);
      ok, r := good, MgmtErrorResponse(l);
    }
  }

  /** The part of `recv_response` that fills the response. */
  method ExtractContent(h: Heap, j: Json, before: Response) returns (x: Extraction, r: Response)
    requires h.Valid() && Zeroed(before)
    modifies h
    ensures h.Valid() && h.live == old(h.live) + ResponseIds(r)
    ensures x == Extract(j)
    ensures if x.Extracted? then Holds(r, x.content) else Zeroed(r)
  {
    x, r := Extracted(Nothing, false), before;
    ZeroedOwnsNothing(before);
    var result, error, list := Entry(j, "result"), Entry(j, "error"), Entry(j, "mgmterrorlist");
    if result.Some? {
      var ok;
      ok, r := ExtractResult(h, result.value, before);
      x := if ok then Extracted(ResultOf(result.value).value, true) else Failed;
    } else if error.Some? {
      if error.value.Str? {
        var p := h.Alloc(error.value.s);
        x, r := Extracted(ErrorText(error.value.s), false), ErrorResponse(p);
      } else {
        x, r := Failed, ErrorResponse(NullPtr);
      }
    } else if list.Some? {
      var ok;
      ok, r := ExtractErrors(h, list.value);
      x := if ok then Extracted(Errors(ErrorList(list.value).value), true) else Failed;
    }
  }

  // ----- the connection

  class Conn {
    var reqId: nat
    var input: seq<Item>

    constructor (input: seq<Item>)
      ensures State() == Connection(0, input)
    {
      this.reqId, this.input := 0, input;
    }

    function State(): Connection
      reads this
    {
      Connection(reqId, input)
    }

    /** `send_request`. */
    method SendRequest(s: Sending) returns (ok: bool)
      modifies this
      ensures State() == Send(old(State()), s) && ok == s.Written?
    {
      if s.Rejected? {
        return false;
      }
      reqId := (reqId + 1) % ID_RANGE;
      ok := s.Written?;
    }

    /** Reads until there is a document or the stream ends. */
    method LoadDocument() returns (doc: Option<Json>)
      modifies this
      ensures (doc, input) == Receive(old(input)) && reqId == old(reqId)
    {
      doc := None;
      while doc.None? && input != []
        invariant reqId == old(reqId)
        invariant if doc.None? then Receive(input) == Receive(old(input)) else (doc, input) == Receive(old(input))
        decreases |input|
      {
        if input[0].Doc? {
          doc := Some(input[0].j);
        }
        input := input[1..];
      }
    }

    /** `recv_response`. */
    method RecvResponse(h: Heap, before: Response) returns (ok: bool, r: Response)
      requires h.Valid() && Zeroed(before)
      modifies this, h
      ensures input == Receive(old(input)).1 && reqId == old(reqId)
      ensures h.Valid() && h.live == old(h.live) + ResponseIds(r)
      ensures var doc := Receive(old(input)).0;
              && (ok <==> doc.Some? && !doc.value.Null? && Accepted(doc.value, reqId))
              && (ok ==> Extract(doc.value).Extracted? && Holds(r, Extract(doc.value).content))
    {
      ok, r := false, before;
      ZeroedOwnsNothing(before);
      var doc := LoadDocument();
      if doc.None? || doc.value.Null? {
        return;
      }
      var x;
      x, r := ExtractContent(h, doc.value, before);
      if x.Failed? {
        return;
      }
      var id := if doc.value.Object? && "id" in doc.value.fields then Some(doc.value.fields["id"]) else None;
      if id.None? || !id.value.Int? {
        ok := x.good;
        return;
      }
      ok := id.value.n % ID_RANGE == reqId;
    }
  }
}
