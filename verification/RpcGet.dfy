/** Requests with a typed result: who owns what when they return. */
module RpcGet {
  import opened Options
  import opened Rpc
  import opened RpcClient
  import opened ErrorText

  // ----- the error of the caller

  /** Of several errors, each has a message. */
  predicate Reportable(es: seq<ErrorFields>) {
    |es| >= 2 ==> HaveMessages(es)
  }

  const NO_DATA := "Unspecified error occurred (no data)\n"

  /** The text for clients that do not look at the list. */
  function Summary(es: seq<ErrorFields>): Option<string>
    requires Reportable(es)
  {
    if |es| == 0 then Some(NO_DATA)
    else if |es| == 1 then es[0].message
    else Some(Merged(Messages(es)))
  }

  /** A missing string as it is printed. */
  function TextOrNull(p: Ptr<string>): string {
    if p.NullPtr? then "(null)" else p.val
  }

  class ConfigdError {
    var text: Ptr<string>
    var isMgmt: bool
    var errs: ErrList

    /** `error_init`. */
    constructor ()
      ensures Clear()
    {
      text, isMgmt, errs := NullPtr, false, NO_ERRORS;
    }

    predicate Clear()
      reads this
    {
      text.NullPtr? && !isMgmt && errs == NO_ERRORS
    }

    predicate IsBasic(s: string)
      reads this
    {
      Val(text) == Some(s) && !isMgmt && errs == NO_ERRORS
    }

    predicate IsList(l: ErrList)
      reads this
    {
      isMgmt && errs == l && Reportable(Views(l.entries)) && Val(text) == Summary(Views(l.entries))
    }

    /** There are no entries without an array. */
    predicate Solid()
      reads this
    {
      errs.array_.NullPtr? ==> errs == NO_ERRORS
    }

    /** What the error says about a response that is no answer. */
    predicate Reports(r: Response)
      reads this
    {
      if r.ErrorResponse? then IsBasic(TextOrNull(r.text) + "\n")
      else if r.MgmtErrorResponse? then IsList(r.errs)
      else Clear()
    }

    /** What the error says about the content of a response. */
    predicate Shows(c: Content)
      reads this
    {
      match c
      case ErrorText(s) => IsBasic(s + "\n")
      case Errors(es) => isMgmt && Views(errs.entries) == es && Reportable(es) && Val(text) == Summary(es)
      case Nothing => true
      case _ => Clear()
    }
  }

  ghost function OwnedBy(e: ConfigdError?): multiset<nat>
    reads e
  {
    if e == null then multiset{} else Ids(e.text) + ListIds(e.errs)
  }

  /** `error_setf`. */
  method SetText(h: Heap, error: ConfigdError?, s: string)
    requires h.Valid() && (error != null ==> error.Clear())
    modifies h, error
    ensures h.Valid() && h.live == old(h.live) + OwnedBy(error)
    ensures error != null ==> error.IsBasic(s)
  {
    if error != null {
      error.text := h.Alloc(s);
      NothingListed(NullPtr);
    }
  }

  /** The text of a list: a copy of the only message, or all messages merged. */
  method SummaryText(h: Heap, es: seq<ErrorFields>) returns (text: Ptr<string>)
    requires h.Valid() && Reportable(es)
    modifies h
    ensures h.Valid() && h.live == old(h.live) + Ids(text) && Val(text) == Summary(es)
  {
    if |es| == 0 {
      text := h.Alloc(NO_DATA);
    } else if |es| == 1 {
      text := h.Dup(es[0].message);
    } else {
      text := MergedText(h, es);
    }
  }

  method MergedText(h: Heap, es: seq<ErrorFields>) returns (text: Ptr<string>)
    requires h.Valid() && HaveMessages(es)
    modifies h
    ensures h.Valid() && h.live == old(h.live) + Ids(text) && Val(text) == Some(Merged(Messages(es)))
  {
    var merged := MergeMessages(Messages(es));
    var messages := h.Alloc(merged);
    text := h.Dup(Some(messages.val));
    Swapped(old(h.live), Ids(messages), Ids(text));
    h.Free(messages, old(h.live) + Ids(text));
  }

  lemma Swapped(k: multiset<nat>, a: multiset<nat>, b: multiset<nat>)
    ensures k + a + b == k + b + a
  {
  }

  /** `error_set_from_mgmt_error_list`: the list changes its owner. */
  method TakeOver(h: Heap, error: ConfigdError, l: ErrList, ghost keep: multiset<nat>)
    requires h.Valid() && error.Clear() && h.live == keep + ListIds(l) && Reportable(Views(l.entries))
    modifies h, error
    ensures h.Valid() && h.live == keep + OwnedBy(error)
    ensures error.IsList(l)
  {
    var es := Views(l.entries);
    var text := SummaryText(h, es);
    SetFields(error, l, text, keep);
    assert error.IsList(l);
  }

  method SetFields(error: ConfigdError, l: ErrList, text: Ptr<string>, ghost keep: multiset<nat>)
    modifies error
    ensures error.errs == l && error.isMgmt && error.text == text
    ensures keep + ListIds(l) + Ids(text) == keep + OwnedBy(error)
  {
    error.errs, error.isMgmt, error.text := l, true, text;
    TakeOut(keep, Ids(text), ListIds(l));
  }

  // ----- typed requests

  datatype Kind = IntKind | StringKind | VectorKind | MapKind

  predicate HasKind(r: Response, kind: Kind) {
    match kind
    case IntKind => r.IntResponse?
    case StringKind => r.StringResponse?
    case VectorKind => r.VectorResponse?
    case MapKind => r.MapResponse?
  }

  predicate IsOfKind(c: Content, kind: Kind) {
    match kind
    case IntKind => c.Number?
    case StringKind => c.Text?
    case VectorKind => c.Vector?
    case MapKind => c.Dict?
  }

  ghost function AnswerIds(a: Option<Response>): multiset<nat> {
    if a.None? then multiset{} else ResponseIds(a.value)
  }

  /** The answer is the content if and only if that has the right kind. */
  predicate Answers(a: Option<Response>, c: Content, kind: Kind) {
    !c.Nothing? ==> (a.Some? <==> IsOfKind(c, kind)) && (a.Some? ==> Holds(a.value, c))
  }

  predicate MayReport(r: Response) {
    r.MgmtErrorResponse? ==> Reportable(Views(r.errs.entries))
  }

  /** `error_setf` with the server's text, which is then freed. */
  method ReportText(h: Heap, error: ConfigdError?, text: Ptr<string>, ghost keep: multiset<nat>)
    requires h.Valid() && (error != null ==> error.Clear()) && h.live == keep + Ids(text)
    modifies h, error
    ensures h.Valid() && h.live == keep + OwnedBy(error)
    ensures error != null ==> error.IsBasic(TextOrNull(text) + "\n")
  {
    SetText(h, error, TextOrNull(text) + "\n");
    Swapped(keep, Ids(text), OwnedBy(error));
    FreeResponse(h, ErrorResponse(text), keep + OwnedBy(error));
  }

  method ReportErrors(h: Heap, error: ConfigdError?, l: ErrList, ghost keep: multiset<nat>)
    requires h.Valid() && (error != null ==> error.Clear()) && h.live == keep + ListIds(l)
    requires error != null ==> Reportable(Views(l.entries))
    modifies h, error
    ensures h.Valid() && h.live == keep + OwnedBy(error)
    ensures error != null ==> error.IsList(l)
  {
    if error == null {
      FreeResponse(h, MgmtErrorResponse(l), keep);
    } else {
      TakeOver(h, error, l, keep);
      ZeroedOwnsNothing(MgmtErrorResponse(NO_ERRORS));
      FreeResponse(h, MgmtErrorResponse(NO_ERRORS), keep + OwnedBy(error));
    }
  }

  /** What happens to a response that is not of the wanted kind. */
  method Report(h: Heap, r: Response, error: ConfigdError?, ghost keep: multiset<nat>)
    requires h.Valid() && (error != null ==> error.Clear() && MayReport(r)) && h.live == keep + ResponseIds(r)
    modifies h, error
    ensures h.Valid() && h.live == keep + OwnedBy(error) && (error != null ==> error.Reports(r))
  {
    if r.ErrorResponse? {
      ReportText(h, error, r.text, keep);
    } else if r.MgmtErrorResponse? {
      ReportErrors(h, error, r.errs, keep);
    } else {
      FreeResponse(h, r, keep);
      ClearOwnsNothing(error);
    }
  }

  lemma ClearOwnsNothing(error: ConfigdError?)
    requires error != null ==> error.Clear()
    ensures OwnedBy(error) == multiset{}
  {
    NothingListed(NullPtr);
  }

  lemma ReportShows(error: ConfigdError, r: Response, c: Content)
    requires error.Reports(r) && Holds(r, c)
    ensures error.Shows(c) && error.Solid()
  {
  }

  /** The switch over the type of the response. */
  method Dispatch(h: Heap, kind: Kind, r: Response, error: ConfigdError?, ghost c: Content, ghost keep: multiset<nat>)
    returns (a: Option<Response>)
    requires h.Valid() && (error != null ==> error.Clear() && MayReport(r)) && h.live == keep + ResponseIds(r)
    requires Holds(r, c)
    modifies h, error
    ensures h.Valid() && h.live == keep + AnswerIds(a) + OwnedBy(error)
    ensures Answers(a, c, kind) && (error != null ==> error.Shows(c) && error.Solid())
  {
    if HasKind(r, kind) {
      a := Some(r);
      ClearOwnsNothing(error);
    } else {
      a := None;
      Report(h, r, error, keep);
      if error != null {
        ReportShows(error, r, c);
      }
    }
    KindsAgree(a, r, c, kind);
  }

  lemma KindsAgree(a: Option<Response>, r: Response, c: Content, kind: Kind)
    requires Holds(r, c) && a == if HasKind(r, kind) then Some(r) else None
    ensures Answers(a, c, kind)
  {
  }

  const SENDING := "Error sending request"
  const RECEIVING := "Error receiving response"

  /** The errors of a delivered document can be summed up. */
  predicate CanReport(d: Option<Delivery>) {
    d.Some? && Extract(d.value.doc).Extracted? && Extract(d.value.doc).content.Errors? ==>
      Reportable(Extract(d.value.doc).content.list)
  }

  /** What a request leaves, given the document it delivers. */
  ghost predicate Outcome(d: Option<Delivery>, s: Sending, kind: Kind, a: Option<Response>, error: ConfigdError?)
    reads error
  {
    && (error != null ==> error.Solid())
    && if d.None? then a.None? && (error != null ==> error.IsBasic(if s.Written? then RECEIVING else SENDING))
       else
         && Extract(d.value.doc).Extracted? && Answers(a, Extract(d.value.doc).content, kind)
         && (error != null ==> error.Shows(Extract(d.value.doc).content))
  }

  /**
    `get_int`, `get_str`, `get_vector` and `get_map`, which differ in the wanted kind only. `junk` is what the
    uninitialised response looks like after its union has been cleared.
  */
  method Get(h: Heap, conn: Conn, s: Sending, kind: Kind, error: ConfigdError?, junk: Response)
      returns (a: Option<Response>)
    requires h.Valid() && (error != null ==> error.Clear()) && Zeroed(junk)
    requires error != null ==> CanReport(Request(conn.State(), s).1)
    modifies h, conn, error
    ensures h.Valid() && h.live == old(h.live) + AnswerIds(a) + OwnedBy(error)
    ensures conn.State() == Request(old(conn.State()), s).0
    ensures Outcome(Request(old(conn.State()), s).1, s, kind, a, error)
  {
    var sent := conn.SendRequest(s);
    if sent {
      a := Await(h, conn, kind, error, junk);
    } else {
      a := None;
      SetText(h, error, SENDING);
    }
  }

  /** The second half of a request that has been written. */
  method Await(h: Heap, conn: Conn, kind: Kind, error: ConfigdError?, junk: Response) returns (a: Option<Response>)
    requires h.Valid() && (error != null ==> error.Clear()) && Zeroed(junk)
    requires error != null ==> CanReport(Awaited(conn.State()).1)
    modifies h, conn, error
    ensures h.Valid() && h.live == old(h.live) + AnswerIds(a) + OwnedBy(error)
    ensures conn.State() == Awaited(old(conn.State())).0
    ensures Outcome(Awaited(old(conn.State())).1, Written, kind, a, error)
  {
    ghost var keep := h.live;
    ghost var d := Awaited(conn.State()).1;
    var ok, r := conn.RecvResponse(h, junk);
    if ok {
      a := Dispatch(h, kind, r, error, Extract(d.value.doc).content, keep);
    } else {
      a := None;
      SetText(h, error, RECEIVING);
      Swapped(keep, ResponseIds(r), OwnedBy(error));
      FreeResponse(h, r, keep + OwnedBy(error));
    }
  }

  // ----- what the caller does with the error

  /** `configd_error_free`. */
  method FreeError(h: Heap, error: ConfigdError?, ghost keep: multiset<nat>)
    requires h.Valid() && h.live == keep + OwnedBy(error)
    requires error != null ==> error.Solid()
    modifies h, error
    ensures h.Valid() && h.live == keep
    ensures error != null ==> error.text.NullPtr? && error.errs == NO_ERRORS && error.isMgmt == old(error.isMgmt)
  {
    if error == null {
      return;
    }
    FreeText(h, error, keep);
    if error.errs.array_.Ptr? {
      FreeList(h, error.errs, keep);
      error.errs := NO_ERRORS;
    } else {
      NoListKept(keep);
    }
  }

  method FreeText(h: Heap, error: ConfigdError, ghost keep: multiset<nat>)
    requires h.Valid() && h.live == keep + OwnedBy(error)
    modifies h, error
    ensures h.Valid() && h.live == keep + ListIds(error.errs)
    ensures error.text.NullPtr? && error.errs == old(error.errs) && error.isMgmt == old(error.isMgmt)
  {
    TakeOut(keep, Ids(error.text), ListIds(error.errs));
    h.Free(error.text, keep + ListIds(error.errs));
    error.text := NullPtr;
  }

  lemma NoListKept(keep: multiset<nat>)
    ensures keep + ListIds(NO_ERRORS) == keep
  {
    NothingListed(NullPtr);
  }

  /** The buffer for the failure line that is not freed when the error has no list. */
  ghost function Leak(isMgmt: bool, errs: ErrList, buffer: nat): multiset<nat> {
    if isMgmt && errs.array_.NullPtr? then multiset{buffer} else multiset{}
  }

  /** `configd_error_format_for_commit_or_val`: the new text takes the place of the old one. */
  method FormatForCommit(h: Heap, error: ConfigdError?, operation: Option<string>, ghost keep: multiset<nat>)
    returns (ghost leak: nat)
    requires h.Valid() && h.live == keep + OwnedBy(error)
    requires error != null ==> HaveText(error.errs.entries)
    modifies h, error
    ensures h.Valid()
    ensures error == null ==> h.live == keep
    ensures error != null ==> h.live == keep + OwnedBy(error) + Leak(error.isMgmt, error.errs, leak)
    ensures error != null ==> error.errs == old(error.errs) && error.isMgmt == old(error.isMgmt)
    ensures error != null ==>
              if error.isMgmt && error.errs.array_.Ptr?
              then Val(error.text) == Some(CommitText(Views(error.errs.entries), operation))
              else error.text == old(error.text)
  {
    leak := 0;
    if error == null || !error.isMgmt {
      return;
    }
    var failure := FormatFailure(operation);
    var line := h.Alloc(failure);
    if error.errs.array_.NullPtr? {
      leak := line.id;
      return;
    }
    ghost var owned := keep + OwnedBy(error);
    var output := PrependErrors(h, error.errs.entries, line, owned);
    ReplaceText(h, error, output, keep);
  }

  ghost predicate HaveText(es: seq<MgmtError>) {
    forall i :: 0 <= i < |es| ==> HasText(View(es[i]))
  }

  /** `configd_mgmt_error_format_for_commit_or_val`: the copied path is freed again. */
  method FormatError(h: Heap, e: MgmtError) returns (output: Ptr<string>)
    requires h.Valid() && HasText(View(e))
    modifies h
    ensures h.Valid() && h.live == old(h.live) + Ids(output) && output.Ptr? && output.val == Formatted(View(e))
  {
    var shown := SpaceSeparated(Val(e.path));
    var path := h.Dup(shown);
    var text := FormatBlock(Val(path), Val(e.message));
    output := h.Alloc(text);
    Swapped(old(h.live), Ids(path), Ids(output));
    h.Free(path, old(h.live) + Ids(output));
  }

  /** One round of the loop: the text of the error and the output so far are freed, and their sum remains. */
  method PrependError(h: Heap, e: MgmtError, cur: Ptr<string>, ghost done: string, ghost line: string,
                      ghost keep: multiset<nat>) returns (output: Ptr<string>)
    requires h.Valid() && HasText(View(e)) && h.live == keep + Ids(cur) && cur.Ptr? && cur.val == done + line
    modifies h
    ensures h.Valid() && h.live == keep + Ids(output)
    ensures output.Ptr? && output.val == (Formatted(View(e)) + done) + line
  {
    var error := FormatError(h, e);
    var sum := Prepend(error.val, cur.val, done, line);
    output := h.Alloc(sum);
    LastOfThree(keep, Ids(cur), Ids(error), Ids(output));
    h.Free(error, keep + Ids(output) + Ids(cur));
    h.Free(cur, keep + Ids(output));
  }

  lemma LastOfThree(k: multiset<nat>, a: multiset<nat>, b: multiset<nat>, c: multiset<nat>)
    ensures k + a + b + c == k + c + a + b
  {
  }

  /** The loop over the errors. */
  method PrependErrors(h: Heap, es: seq<MgmtError>, line: Ptr<string>, ghost keep: multiset<nat>)
    returns (output: Ptr<string>)
    requires h.Valid() && HaveText(es) && h.live == keep + Ids(line) && line.Ptr?
    modifies h
    ensures h.Valid() && h.live == keep + Ids(output)
    ensures output.Ptr? && output.val == Concat(Blocks(Views(es))) + line.val
  {
    output := line;
    ghost var done := "";
    var i := 0;
    while i < |es|
      invariant 0 <= i <= |es| && h.Valid() && h.live == keep + Ids(output)
      invariant output.Ptr? && output.val == done + line.val && done == Concat(Blocks(Views(es)[..i]))
    {
      BlocksStep(Views(es), i);
      output := PrependError(h, es[i], output, done, line.val, keep);
      done := Formatted(View(es[i])) + done;
      i := i + 1;
    }
    assert Views(es)[..|es|] == Views(es);
  }

  method ReplaceText(h: Heap, error: ConfigdError, output: Ptr<string>, ghost keep: multiset<nat>)
    requires h.Valid() && h.live == keep + OwnedBy(error) + Ids(output)
    modifies h, error
    ensures h.Valid() && h.live == keep + OwnedBy(error)
    ensures error.errs == old(error.errs) && error.isMgmt == old(error.isMgmt) && error.text == output
  {
    ghost var rest := keep + ListIds(error.errs);
    TakeOut(keep, Ids(error.text), ListIds(error.errs));
    Swapped(rest, Ids(error.text), Ids(output));
    h.Free(error.text, rest + Ids(output));
    TakeOut(keep, Ids(output), ListIds(error.errs));
    error.text := output;
  }

  /**
    Receiving an error list, freeing the error and then formatting it: the flag is still set, and a buffer stays
    allocated that nobody owns.
  */
  method FormatAfterFree(h: Heap, conn: Conn, s: Sending, kind: Kind, junk: Response) returns (ghost lost: nat)
    requires h.Valid() && Zeroed(junk)
    requires DeliversErrors(Request(conn.State(), s).1)
    modifies h, conn
    ensures h.Valid() && h.live == old(h.live) + multiset{lost}
  {
    var error := new ConfigdError();
    var a := Get(h, conn, s, kind, error, junk);
    assert a.None? && error.isMgmt;
    NoAnswer(old(h.live), OwnedBy(error));
    lost := FreeAndFormat(h, error, old(h.live));
  }

  method FreeAndFormat(h: Heap, error: ConfigdError, ghost keep: multiset<nat>) returns (ghost lost: nat)
    requires h.Valid() && h.live == keep + OwnedBy(error) && error.isMgmt && error.Solid()
    modifies h, error
    ensures h.Valid() && h.live == keep + multiset{lost}
  {
    FreeError(h, error, keep);
    ClearedOwnsNothing(error, keep);
    lost := FormatForCommit(h, error, None, keep);
    ClearedOwnsNothing(error, keep);
  }

  lemma NoAnswer(keep: multiset<nat>, owned: multiset<nat>)
    ensures keep + AnswerIds(None) + owned == keep + owned
  {
  }

  lemma ClearedOwnsNothing(error: ConfigdError, keep: multiset<nat>)
    requires error.text.NullPtr? && error.errs == NO_ERRORS
    ensures keep + OwnedBy(error) == keep
  {
    NothingListed(NullPtr);
  }

  /** The delivered document is an error list that can be summed up. */
  predicate DeliversErrors(d: Option<Delivery>) {
    d.Some? && Extract(d.value.doc).Extracted? && Extract(d.value.doc).content.Errors? && CanReport(d)
  }

  const ONE_ERROR := Object(map["mgmterrorlist" := Object(map["error-list" := Array([Object(map[])])]), "id" := Int(1)])

  /** A response with one empty error is such a document. */
  lemma OneErrorIsDelivered()
    ensures DeliversErrors(Request(Connection(0, [Doc(ONE_ERROR)]), Written).1)
  {
    var e := Object(map[]);
    assert InfoOf(e) == Some(None) && ErrorOf(e).Some?;
    var list := Object(map["error-list" := Array([e])]);
    assert Entry(list, "error-list") == Some(Array([e]));
    assert ErrorsOf([e]).Some?;
    assert Entry(ONE_ERROR, "result").None? && Entry(ONE_ERROR, "error").None?;
    assert Entry(ONE_ERROR, "mgmterrorlist") == Some(list);
    assert Extract(ONE_ERROR) == Extracted(Errors(ErrorsOf([e]).value), true);
    assert CarriesId(ONE_ERROR, 1);
    assert Receive([Doc(ONE_ERROR)]).0 == Some(ONE_ERROR);
  }

  // ----- whole runs

  /** No document in the stream has an error list that cannot be summed up. */
  ghost predicate AllReportable(input: seq<Item>) {
    forall j :: InStream(j, input) ==> CanReport(Some(Delivery(0, j)))
  }

  lemma StaysReportable(c: Connection, s: Sending)
    requires AllReportable(c.input)
    ensures AllReportable(Request(c, s).0.input) && CanReport(Request(c, s).1)
  {
    ReceivedFromStream(c.input);
    var d := Request(c, s).1;
    if d.Some? {
      assert CanReport(Some(Delivery(0, d.value.doc)));
    }
  }

  ghost function AllIds(answers: seq<Option<Response>>): multiset<nat> {
    if answers == [] then multiset{} else AllIds(answers[..|answers| - 1]) + AnswerIds(answers[|answers| - 1])
  }

  lemma AllIdsAppend(answers: seq<Option<Response>>, a: Option<Response>, keep: multiset<nat>)
    ensures keep + AllIds(answers + [a]) == keep + AllIds(answers) + AnswerIds(a)
  {
    var more := answers + [a];
    assert more[..|more| - 1] == answers;
    Nested(keep, AllIds(answers), AnswerIds(a));
  }

  /** One request with an error of its own, which is freed afterwards. */
  method GetAndForget(h: Heap, conn: Conn, s: Sending, kind: Kind, junk: Response) returns (a: Option<Response>)
    requires h.Valid() && Zeroed(junk) && AllReportable(conn.input)
    modifies h, conn
    ensures h.Valid() && h.live == old(h.live) + AnswerIds(a) && AllReportable(conn.input)
    ensures conn.State() == Request(old(conn.State()), s).0
    ensures AnswersTo(Request(old(conn.State()), s).1, kind, a)
  {
    StaysReportable(conn.State(), s);
    var error := new ConfigdError();
    a := Get(h, conn, s, kind, error, junk);
    FreeError(h, error, old(h.live) + AnswerIds(a));
  }

  /** Nothing without a delivery; otherwise the content of the delivered document, if it has the right kind. */
  ghost predicate AnswersTo(d: Option<Delivery>, kind: Kind, a: Option<Response>) {
    if d.None? then a.None?
    else Extract(d.value.doc).Extracted? && Answers(a, Extract(d.value.doc).content, kind)
  }

  /** The answers fit the first deliveries. */
  ghost predicate Fit(ds: seq<Option<Delivery>>, kinds: seq<Kind>, answers: seq<Option<Response>>) {
    && |answers| == |ds| <= |kinds|
    && forall i :: 0 <= i < |ds| ==> AnswersTo(ds[i], kinds[i], answers[i])
  }

  lemma FitOneMore(ds: seq<Option<Delivery>>, kinds: seq<Kind>, answers: seq<Option<Response>>, d: Option<Delivery>,
                   a: Option<Response>)
    requires Fit(ds, kinds, answers) && |ds| < |kinds| && AnswersTo(d, kinds[|ds|], a)
    ensures Fit(ds + [d], kinds, answers + [a])
  {
  }

  lemma RunStep(c: Connection, sends: seq<Sending>, i: nat, done: seq<Option<Delivery>>)
    requires i < |sends|
    ensures done + Run(c, sends[i..]) == (done + [Request(c, sends[i]).1]) + Run(Request(c, sends[i]).0, sends[i + 1..])
  {
    assert sends[i..][1..] == sends[i + 1..];
  }

  /**
    Any run of requests on one connection: the answers are those of the run, and in the end exactly the answers are
    still allocated.
  */
  method RunRequests(h: Heap, conn: Conn, sends: seq<Sending>, kinds: seq<Kind>, junk: Response)
    returns (answers: seq<Option<Response>>)
    requires h.Valid() && Zeroed(junk) && AllReportable(conn.input) && |kinds| == |sends|
    modifies h, conn
    ensures h.Valid() && h.live == old(h.live) + AllIds(answers)
    ensures |answers| == |sends| && Fit(Run(old(conn.State()), sends), kinds, answers)
  {
    answers := [];
    ghost var keep, done := h.live, [];
    ghost var c := conn.State();
    var i := 0;
    assert sends[0..] == sends && done + Run(c, sends) == Run(c, sends);
    while i < |sends|
      invariant 0 <= i <= |sends| && h.Valid() && AllReportable(conn.input)
      invariant h.live == keep + AllIds(answers)
      invariant |answers| == i && Run(c, sends) == done + Run(conn.State(), sends[i..])
      invariant Fit(done, kinds, answers)
    {
      RunStep(conn.State(), sends, i, done);
      ghost var d := Request(conn.State(), sends[i]).1;
      var a := GetAndForget(h, conn, sends[i], kinds[i], junk);
      AllIdsAppend(answers, a, keep);
      FitOneMore(done, kinds, answers, d, a);
      answers, done := answers + [a], done + [d];
      i := i + 1;
    }
    assert Run(conn.State(), sends[|sends|..]) == [];
  }
}
