/**
  * Request and response correlation of the JSON-RPC server codec (codec/jsonrpc/server.go). JSON
  * text is taken as parsed; what is kept is the heap: one request workspace, truncated and reused in
  * place, and a table of pointers to the raw IDs it held.
  */
module JsonRpcServer {
  import opened GoBase

  /** A `json.RawMessage` behind a pointer. */
  class Cell {
    var text: bytes

    constructor (text: bytes)
      ensures this.text == text
    {
      this.text := text;
    }
  }

  const NullText: bytes := [0x6e, 0x75, 0x6c, 0x6c]

  /** A member of the request object that is decoded into a pointer. */
  datatype Member = Absent | Null | Text(text: bytes)

  /** What the decoder finds in a request object: whether "jsonrpc" and "method" are there and not
      null, how many members it has, and whether every known member has the type of its field. */
  datatype Object = Object(wellTyped: bool, hasVersion: bool, hasMethod: bool, size: nat, version: string, params: Member, id: Member)
  {
    predicate Counted() {
      size >= (if hasVersion then 1 else 0) + (if hasMethod then 1 else 0) + (if params.Absent? then 0 else 1) + (if id.Absent? then 0 else 1)
    }
  }

  datatype Input = NotJson | Json(o: Object, post: bool)

  /** A request of JSON-RPC 2.0, section 4: its version is "2.0", its method is named, it has no other
      members than params and id, params are structured and the id is a string, a number or null. */
  predicate Acceptable(o: Object) {
    && o.wellTyped && o.hasVersion && o.hasMethod && o.version == "2.0"
    && o.size == 2 + (if o.params.Absent? then 0 else 1) + (if o.id.Absent? then 0 else 1)
    && (o.params.Absent? || (o.params.Text? && o.params.text != [] && o.params.text[0] in {0x5b, 0x7b}))
    && (o.id.Text? ==> o.id.text != [] && o.id.text[0] !in {0x74, 0x66, 0x7b, 0x5b})
  }

  /** Clause by clause, with the characters that texts begin with. */
  lemma AcceptableExact(o: Object)
    ensures Acceptable(o) <==>
            && o.wellTyped && o.hasVersion && o.hasMethod && o.version == "2.0"
            && o.size == 2 + (if o.params == Absent then 0 else 1) + (if o.id == Absent then 0 else 1)
            && (match o.params
                case Absent => true
                case Null => false
                case Text(t) => t != [] && (t[0] as char == '[' || t[0] as char == '{'))
            && (match o.id
                case Absent => true
                case Null => true
                case Text(t) => t != [] && t[0] as char != 't' && t[0] as char != 'f' && t[0] as char != '{' && t[0] as char != '[')
  {
  }

  /** The texts kept for an ID and for params. */
  lemma TextsExact(t: bytes)
    ensures IdText(Text(t)) == t && IdText(Null) == ['n' as int, 'u' as int, 'l' as int, 'l' as int]
    ensures ParamText(Text(t)) == t && ParamText(Absent) == []
  {
  }

  function IdText(id: Member): bytes {
    match id
    case Absent => []
    case Null => NullText
    case Text(text) => text
  }

  function ParamText(p: Member): bytes {
    if p.Text? then p.text else []
  }

  /** What is handed to the JSON encoder: replies to refused requests, and answers. */
  datatype Reply =
    | Refusal(id: bytes, code: int)
    | Answer(id: bytes, result: Out, error: Out)

  datatype Out = Omitted | Raw(text: bytes)

  /** What has become of an accepted request: waiting for its method, its answer being written, its
      answer the k-th thing sent, a notification that is done, or an answer the encoder rejected. */
  datatype Fate = Pending | Writing | Answered(k: nat) | Notified | Lost

  /** Refused requests after which the workspace holds no ID. */
  predicate Clean(input: Input) {
    input.NotJson? || input.o.id.Absent? || (input.o.id.Null? && !Acceptable(input.o))
  }

  /** `null` stands for the package variable of that name. `writing` holds the local variables of the
      goroutines that are between the two critical sections of Write. */
  class ServerCodec {
    const null_: Cell
    var reqID: Cell?
    var reqParams: Cell?
    var seqNo: int64
    var pending: map<int, Cell?>
    var writing: map<int, Cell>
    var out: seq<Reply>
    ghost var log: seq<Object>
    ghost var fate: seq<Fate>
    ghost var owner: seq<int>
    ghost var cells: set<Cell>

    ghost predicate Owned()
      reads this
    {
      && null_ in cells
      && (reqID != null ==> reqID in cells && reqID != reqParams)
      && (reqParams != null ==> reqParams in cells && reqParams != null_)
    }

    /** `cell` is what the codec keeps for a request with this ID: a nil pointer for a notification,
        else a text of its own that no later read touches. */
    ghost predicate Keeps(cell: Cell?, id: Member)
      reads this, cells
    {
      && (cell == null <==> id.Absent?)
      && (cell != null ==> cell in cells && cell.text == IdText(id) && cell != reqParams)
    }

    /** Each answer belongs to one number, that of an accepted request with an ID, and carries that
        ID; no other answer belongs to this number. */
    ghost predicate Answers()
      reads this
    {
      && |owner| == |out| && |fate| == |log|
      && forall k | 0 <= k < |out| && out[k].Answer? ::
           1 <= owner[k] <= |log| && fate[owner[k] - 1] == Answered(k)
           && !log[owner[k] - 1].id.Absent? && out[k].id == IdText(log[owner[k] - 1].id)
    }

    /** Where request number n is. */
    ghost predicate InPlace(n: int)
      reads this, cells
      requires 1 <= n <= |log| && |fate| == |log| && |owner| == |out|
    {
      var f, id := fate[n - 1], log[n - 1].id;
      && (f.Pending? <==> n in pending)
      && (f.Writing? <==> n in writing)
      && (f.Pending? ==> Keeps(pending[n], id))
      && (f.Writing? ==> Keeps(writing[n], id))
      && (f.Answered? ==> f.k < |out| && out[f.k].Answer? && owner[f.k] == n)
      && (f.Notified? ==> id.Absent?)
      && (f.Lost? ==> !id.Absent?)
    }

    ghost predicate Table()
      reads this, cells
    {
      && |fate| == |log| && |owner| == |out|
      && (forall n | n in pending :: 1 <= n <= |log|)
      && (forall n | n in writing :: 1 <= n <= |log|)
      && forall n | 1 <= n <= |log| :: InPlace(n)
    }

    /** The invariant between calls. */
    ghost predicate Correlated()
      reads this, cells
    {
      Owned() && Answers() && reqID == null && null_.text == NullText && seqNo == |log| && Table()
    }

    /** The params of the latest request are at hand. */
    ghost predicate BodyReady()
      reads this, cells
    {
      && Owned()
      && (reqParams == null <==> forall i | 0 <= i < |log| :: log[i].params.Absent?)
      && (reqParams != null ==> reqParams.text == ParamText(log[|log| - 1].params))
    }

    /** What can be told from outside: the accepted requests, the numbers waiting and being written,
        and what has been sent. */
    ghost function View(): Session
      reads this
    {
      Session(log, pending.Keys, writing.Keys, out)
    }

    constructor (null_: Cell)
      requires null_.text == NullText
      ensures Correlated() && BodyReady() && log == [] && out == [] && cells == {null_} && this.null_ == null_
      ensures pending == map[] && writing == map[]
    {
      this.null_ := null_;
      reqID, reqParams, seqNo, pending, writing, out := null, null, 0, map[], map[], [];
      log, fate, owner, cells := [], [], [], {null_};
    }

    method Reset()
      requires Owned()
      modifies cells
      ensures Owned()
      ensures reqID != null ==> reqID.text == []
      ensures reqParams != null ==> reqParams.text == []
      ensures forall c | c in cells && c != reqID && c != reqParams :: c.text == old(c.text)
    {
      if reqParams != null {
        reqParams.text := [];
      }
      if reqID != null {
        reqID.text := [];
      }
    }

    /** json.Unmarshal of the object into the workspace: a null member clears the pointer, any other
        value is written where the pointer points, and a cell is allocated only for a nil pointer. */
    method Fill(o: Object)
      requires Owned()
      modifies this`reqID, this`reqParams, this`cells, cells
      ensures Owned() && old(cells) <= cells && fresh(cells - old(cells))
      ensures forall c | c in old(cells) && c != old(reqID) && c != old(reqParams) :: c.text == old(c.text)
      ensures match o.id
              case Absent => reqID == old(reqID) && (reqID != null ==> reqID.text == old(reqID.text))
              case Null => reqID == null && forall c | c in old(cells) && c != old(reqParams) :: c.text == old(c.text)
              case Text(t) => reqID != null && reqID.text == t && if old(reqID) == null then fresh(reqID) else reqID == old(reqID)
      ensures match o.params
              case Absent => reqParams == old(reqParams) && (reqParams != null ==> reqParams.text == old(reqParams.text))
              case Null => reqParams == null
              case Text(t) => reqParams != null && reqParams.text == t && if old(reqParams) == null then fresh(reqParams) else reqParams == old(reqParams)
    {
      match o.params {
        case Absent =>
        case Null => reqParams := null;
        case Text(t) =>
          if reqParams == null {
            reqParams := new Cell(t);
            cells := cells + {reqParams};
          } else {
            reqParams.text := t;
          }
      }
      match o.id {
        case Absent =>
        case Null => reqID := null;
        case Text(t) =>
          if reqID == null {
            reqID := new Cell(t);
            cells := cells + {reqID};
          } else {
            reqID.text := t;
          }
      }
    }

    /** With a clean workspace, a request is taken if and only if it is acceptable. A leftover ID cell
        is reused: a notification keeps it, emptied; an ID is written into it; and when it is the
        package's `null`, that is what is emptied or overwritten. */
    method UnmarshalJSON(o: Object) returns (ok: bool)
      requires Owned() && o.Counted()
      modifies this`reqID, this`reqParams, this`cells, cells
      ensures Owned() && old(cells) <= cells && fresh(cells - old(cells))
      ensures forall c | c in old(cells) && c != old(reqID) && c != old(reqParams) :: c.text == old(c.text)
      ensures old(reqID) == null && old(null_.text) == NullText ==>
                && ok == Acceptable(o)
                && match o.id
                   case Absent => reqID == null
                   case Null => reqID == if ok then null_ else null
                   case Text(t) => reqID != null && fresh(reqID) && reqID.text == t
      ensures old(reqID) != null && !o.id.Null? ==> ok == Acceptable(o) && reqID == old(reqID) && reqID.text == IdText(o.id)
      ensures old(reqID) == null_ && o.id.Null? ==> !ok && null_.text == []
      ensures reqParams == null || reqParams == old(reqParams) || fresh(reqParams)
      ensures ok ==> !o.params.Null?
      ensures ok && o.params.Absent? ==> reqParams == old(reqParams) && (reqParams != null ==> reqParams.text == [])
      ensures o.params.Text? ==> reqParams != null && reqParams.text == o.params.text && (fresh(reqParams) || reqParams == old(reqParams))
    {
      Reset();
      Fill(o);
      if !o.wellTyped {
        return false;
      }
      if !o.hasVersion || !o.hasMethod {
        return false;
      }
      var okID, okParams := !o.id.Absent?, !o.params.Absent?;
      if (o.size == 3 && !(okID || okParams)) || (o.size == 4 && !(okID && okParams)) || o.size > 4 {
        return false;
      }
      if o.version != "2.0" {
        return false;
      }
      if okParams {
        if reqParams == null || |reqParams.text| == 0 {
          return false;
        }
        if reqParams.text[0] != 0x5b && reqParams.text[0] != 0x7b {
          return false;
        }
      }
      if okID && reqID == null {
        reqID := null_;
      }
      if okID {
        if |reqID.text| == 0 {
          return false;
        }
        if reqID.text[0] in {0x74, 0x66, 0x7b, 0x5b} {
          return false;
        }
      }
      ok := true;
    }

    /** Accepts exactly the acceptable requests sent by POST, under a number never given before. A
        refusal keeps the invariant if and only if it leaves no ID in the workspace. */
    method ReadHeader(input: Input) returns (ok: bool, id: int64)
      requires Correlated() && |log| < 0x7FFF_FFFF_FFFF_FFFF
      requires input.Json? ==> input.o.Counted()
      modifies this`reqID, this`reqParams, this`seqNo, this`pending, this`out, this`log, this`fate, this`owner, this`cells, cells
      ensures Owned() && Answers()
      ensures ok <==> input.Json? && input.post && Acceptable(input.o)
      ensures ok ==> log == old(log) + [input.o] && fate == old(fate) + [Pending] && id == |log| && pending.Keys == old(pending.Keys) + {id} && id !in old(pending)
      ensures !ok ==> log == old(log) && fate == old(fate) && pending == old(pending)
      ensures Correlated() <==> ok || Clean(input)
      ensures old(BodyReady()) && ok ==> BodyReady()
      ensures out == old(out) + (if input.NotJson? then [Refusal(NullText, -32700)]
                                 else if !Acceptable(input.o) then [Refusal(NullText, -32600)] else [])
      ensures input.Json? && !input.post && Acceptable(input.o) && !input.o.id.Absent? ==> reqID != null && (input.o.id.Null? ==> reqID == null_)
      ensures owner[..|old(owner)|] == old(owner) && old(cells) <= cells && fresh(cells - old(cells))
    {
      id := 0;
      ok := Parse(input);
      if !ok || !input.post {
        return false, 0;
      }
      id := Enter(input.o);
      Appended(old(log), input.o);
    }

    /** Up to the test of the HTTP method; unacceptable input is answered at once. */
    method Parse(input: Input) returns (ok: bool)
      requires Correlated() && (input.Json? ==> input.o.Counted())
      modifies this`reqID, this`reqParams, this`out, this`owner, this`cells, cells
      ensures Owned() && Answers() && Table() && null_.text == NullText
      ensures ok <==> input.Json? && Acceptable(input.o)
      ensures ok ==> Keeps(reqID, input.o.id) && (input.o.id.Null? ==> reqID == null_)
      ensures reqID == null <==> input.NotJson? || input.o.id.Absent? || (input.o.id.Null? && !ok)
      ensures ok ==> if input.o.params.Absent? then reqParams == old(reqParams) else reqParams != null
      ensures ok && reqParams != null ==> reqParams.text == ParamText(input.o.params)
      ensures out == old(out) + (if input.NotJson? then [Refusal(NullText, -32700)]
                                 else if !Acceptable(input.o) then [Refusal(NullText, -32600)] else [])
      ensures owner[..|old(owner)|] == old(owner)
      ensures old(cells) <= cells && fresh(cells - old(cells))
    {
      Reset();
      if input.NotJson? {
        Refuse(-32700);
        forall n | 1 <= n <= old(|log|) ensures InPlace(n) {
          assert old(InPlace(n));
        }
        return false;
      }
      ok := UnmarshalJSON(input.o);
      if !ok {
        Refuse(-32600);
      }
      forall n | 1 <= n <= old(|log|) ensures InPlace(n) {
        assert old(InPlace(n));
      }
    }

    /** The first critical section: the ID is handed over to the table. */
    method Enter(ghost o: Object) returns (id: int64)
      requires Owned() && Answers() && Table() && seqNo == |log| < 0x7FFF_FFFF_FFFF_FFFF
      requires null_.text == NullText && Keeps(reqID, o.id)
      modifies this`reqID, this`seqNo, this`pending, this`log, this`fate
      ensures Correlated() && log == old(log) + [o] && fate == old(fate) + [Pending] && id == |log| && id !in old(pending)
      ensures pending == old(pending)[id := old(reqID)]
    {
      id := Wrap64(seqNo + 1);
      assert id == |log| + 1 && id !in pending && id !in writing;
      seqNo := id;
      pending := pending[id := reqID];
      reqID := null;
      log := log + [o];
      fate := fate + [Pending];
      Appended(old(log), o);
      Appended(old(fate), Pending);
      assert InPlace(id);
      forall n | 1 <= n <= old(|log|) ensures InPlace(n) {
        assert old(InPlace(n));
      }
    }

    method Refuse(code: int)
      requires Owned() && Answers()
      modifies this`out, this`owner
      ensures Answers()
      ensures out == old(out) + [Refusal(null_.text, code)] && owner == old(owner) + [0]
    {
      out := out + [Refusal(null_.text, code)];
      owner := owner + [0];
      Appended(old(out), Refusal(null_.text, code));
      Appended(old(owner), 0);
    }

    /** ReadBody, up to the JSON parser: the text it is given, if any. Params of an earlier request
        leave an empty text behind for a later request without params. */
    method ReadBody(wanted: bool) returns (text: Out)
      requires BodyReady()
      ensures text == if !wanted || forall i | 0 <= i < |log| :: log[i].params.Absent? then Omitted
                      else Raw(ParamText(log[|log| - 1].params))
    {
      if !wanted || reqParams == null {
        return Omitted;
      }
      text := Raw(reqParams.text);
    }

    /** The critical section of Write: the number is given up; the answer of a notification ends here. */
    method Take(id: int) returns (found: bool, b: Cell?)
      requires Correlated()
      modifies this`pending, this`writing, this`fate
      ensures Correlated() && (found <==> id in old(pending))
      ensures pending == old(pending) - {id}
      ensures writing == if found && b != null then old(writing)[id := b] else old(writing)
      ensures fate == if found then old(fate)[id - 1 := if b == null then Notified else Writing] else old(fate)
      ensures found ==> 1 <= id <= |log| && (b == null <==> log[id - 1].id.Absent?)
    {
      if id !in pending {
        return false, null;
      }
      found, b := true, pending[id];
      assert InPlace(id);
      pending := pending - {id};
      if b == null {
        fate := fate[id - 1 := Notified];
      } else {
        fate := fate[id - 1 := Writing];
        writing := writing[id := b];
      }
      forall n | 1 <= n <= old(|log|) ensures InPlace(n) {
        assert old(InPlace(n));
      }
    }

    /** The rest of Write, at any later time: the answer carries the ID of the request that got the
        number, whatever was read in between. `error` is the message's error text, `result` the value
        to be sent, `wrap` the error object made of a plain text; the encoder may reject the whole. */
    method Send(id: int, error: bytes, result: Out, wrap: bytes -> bytes, encodes: bool)
      requires Correlated() && id in writing
      modifies this`writing, this`out, this`owner, this`fate
      ensures Correlated() && writing == old(writing) - {id}
      ensures out == if encodes then old(out) + [AnswerTo(IdText(log[id - 1].id), error, result, wrap)] else old(out)
      ensures encodes ==>
                && |out| == |old(out)| + 1 && out[..|old(out)|] == old(out)
                && var r, req := out[|old(out)|], log[id - 1].id;
                && r.Answer?
                && (req.Text? ==> r.id == req.text) && (req.Null? ==> r.id == [0x6e, 0x75, 0x6c, 0x6c])
                && (error == [] && result.Raw? ==> r.result == result && r.error == Omitted)
                && (error == [] && result.Omitted? ==> r.result == Raw([0x6e, 0x75, 0x6c, 0x6c]) && r.error == Omitted)
                && (error != [] ==> r.result == result)
                && (error != [] && error[0] == 0x7b && error[|error| - 1] == 0x7d ==> r.error == Raw(error))
                && (error != [] && (error[0] != 0x7b || error[|error| - 1] != 0x7d) ==> r.error == Raw(wrap(error)))
      ensures owner == if encodes then old(owner) + [id] else old(owner)
      ensures fate == old(fate)[id - 1 := if encodes then Answered(|old(out)|) else Lost]
    {
      assert InPlace(id);
      var b := writing[id];
      var reply := Reply(b, error, result, wrap);
      writing := writing - {id};
      forall n | 1 <= n <= |log| && n != id ensures InPlace(n) {
        assert old(InPlace(n));
      }
      if encodes {
        Deliver(id, reply);
        return;
      }
      Lose(id);
    }

    method Lose(ghost id: int)
      requires Owned() && Answers() && 1 <= id <= |log| && fate[id - 1].Writing? && id !in writing && id !in pending
      requires !log[id - 1].id.Absent? && forall n | 1 <= n <= |log| && n != id :: InPlace(n)
      modifies this`fate
      ensures Answers() && fate == old(fate)[id - 1 := Lost]
      ensures forall n | 1 <= n <= |log| :: InPlace(n)
    {
      fate := fate[id - 1 := Lost];
      forall n | 1 <= n <= |log| && n != id ensures InPlace(n) {
        assert old(InPlace(n));
      }
    }

    method Deliver(ghost id: int, reply: Reply)
      requires Owned() && Answers() && 1 <= id <= |log| && fate[id - 1].Writing? && id !in writing && id !in pending
      requires reply.Answer? && !log[id - 1].id.Absent? && reply.id == IdText(log[id - 1].id)
      requires forall n | 1 <= n <= |log| && n != id :: InPlace(n)
      modifies this`out, this`owner, this`fate
      ensures Answers() && forall n | 1 <= n <= |log| :: InPlace(n)
      ensures out == old(out) + [reply] && owner == old(owner) + [id] && fate == old(fate)[id - 1 := Answered(|old(out)|)]
    {
      Appended(out, reply);
      Appended(owner, id);
      assert forall k | 0 <= k < |out| && out[k].Answer? :: owner[k] != id;
      fate := fate[id - 1 := Answered(|out|)];
      out := out + [reply];
      owner := owner + [id];
      assert InPlace(id);
      forall n | 1 <= n <= |log| && n != id ensures InPlace(n) {
        assert old(InPlace(n));
      }
    }

    method Reply(b: Cell, error: bytes, result: Out, wrap: bytes -> bytes) returns (reply: Reply)
      requires null_.text == NullText
      ensures reply == AnswerTo(b.text, error, result, wrap)
    {
      var res, err := result, Omitted;
      if error == [] {
        if result.Omitted? {
          res := Raw(null_.text);
        }
      } else if error[0] == 0x7b && error[|error| - 1] == 0x7d {
        err := Raw(error);
      } else {
        err := Raw(wrap(error));
      }
      reply := Answer(b.text, res, err);
    }

    /** Any run of reads, body reads and the two halves of writes, in any interleaving, ending with the
        steps or with the first refused request: number n is the n-th accepted request, an answer
        carries the ID of the request whose number it has, and no number is answered twice. */
    method Run(steps: seq<Step>, wrap: bytes -> bytes) returns (live: bool)
      requires Correlated() && BodyReady() && |log| + |steps| < 0x7FFF_FFFF_FFFF_FFFF
      requires forall i | 0 <= i < |steps| && steps[i].Read? && steps[i].input.Json? :: steps[i].input.o.Counted()
      modifies this`reqID, this`reqParams, this`seqNo, this`pending, this`writing, this`out, this`log, this`fate, this`owner, this`cells, cells
      ensures live ==> Correlated() && BodyReady()
      ensures live <==> forall i | 0 <= i < |steps| :: steps[i].Goes()
      ensures Answers() && log == old(log) + Accepted(steps)
      ensures View() == Replay(old(View()), steps, wrap)
      ensures forall j, k | 0 <= j < k < |out| && out[j].Answer? && out[k].Answer? :: owner[j] != owner[k]
    {
      live := true;
      ghost var todo := steps;
      ReplayLog(View(), steps, wrap);
      for i := 0 to |steps|
        invariant todo == steps[i..] && |log| + |todo| < 0x7FFF_FFFF_FFFF_FFFF
        invariant Correlated() && BodyReady() && live
        invariant Replay(View(), todo, wrap) == Replay(old(View()), steps, wrap)
        invariant forall j | 0 <= j < i :: steps[j].Goes()
        invariant old(cells) <= cells && fresh(cells - old(cells))
      {
        var s := steps[i];
        assert s == todo[0];
        todo := todo[1..];
        if !s.Goes() {
          ActRefused(s, wrap);
          return false;
        }
        live := Act(s, wrap);
      }
    }

    method ActRefused(s: Step, ghost wrap: bytes -> bytes)
      requires Correlated() && |log| < 0x7FFF_FFFF_FFFF_FFFF
      requires !s.Goes() && (s.input.Json? ==> s.input.o.Counted())
      modifies this`reqID, this`reqParams, this`seqNo, this`pending, this`out, this`log, this`fate, this`owner, this`cells, cells
      ensures Answers() && View() == Next(old(View()), s, wrap)
    {
      var ok, n := ReadHeader(s.input);
    }

    method Act(s: Step, wrap: bytes -> bytes) returns (live: bool)
      requires Correlated() && BodyReady() && |log| < 0x7FFF_FFFF_FFFF_FFFF
      requires s.Goes() && (s.Read? ==> s.input.o.Counted())
      modifies this`reqID, this`reqParams, this`seqNo, this`pending, this`writing, this`out, this`log, this`fate, this`owner, this`cells, cells
      ensures Correlated() && BodyReady() && live
      ensures View() == Next(old(View()), s, wrap)
      ensures log == if s.Read? then old(log) + [s.input.o] else old(log)
      ensures old(cells) <= cells && fresh(cells - old(cells))
    {
      live := true;
      match s {
        case Read(input) =>
          var n;
          live, n := ReadHeader(input);
        case Body(wanted) =>
          var text := ReadBody(wanted);
        case Take(n) => ActTake(n, wrap);
        case Send(_, _, _, _) => ActSend(s, wrap);
      }
    }

    method ActTake(n: int, ghost wrap: bytes -> bytes)
      requires Correlated()
      modifies this`pending, this`writing, this`fate
      ensures Correlated() && View() == Next(old(View()), Step.Take(n), wrap)
    {
      var found, b := Take(n);
    }

    method ActSend(s: Step, wrap: bytes -> bytes)
      requires Correlated() && s.Send?
      modifies this`writing, this`out, this`owner, this`fate
      ensures Correlated() && View() == Next(old(View()), s, wrap)
    {
      if s.n in writing {
        Send(s.n, s.error, s.result, wrap, s.encodes);
      }
    }
  }

  /** One atomic step of the connection's goroutines. */
  datatype Step = Read(input: Input) | Body(wanted: bool) | Take(n: int) | Send(n: int, error: bytes, result: Out, encodes: bool)
  {
    predicate Goes() {
      Read? ==> input.Json? && input.post && Acceptable(input.o)
    }
  }

  datatype Session = Session(log: seq<Object>, pending: set<int>, writing: set<int>, out: seq<Reply>)

  /** What each step does to a session, with no heap: a number taken up is answered by its Send and by
      nothing else, with the ID of its request. */
  function Next(s: Session, step: Step, wrap: bytes -> bytes): Session {
    match step
    case Read(NotJson) => s.(out := s.out + [Refusal(NullText, -32700)])
    case Read(Json(o, post)) =>
      if !Acceptable(o) then s.(out := s.out + [Refusal(NullText, -32600)])
      else if !post then s
      else s.(log := s.log + [o], pending := s.pending + {|s.log| + 1})
    case Body(_) => s
    case Take(n) =>
      if n !in s.pending || !(1 <= n <= |s.log|) then s
      else s.(pending := s.pending - {n}, writing := if s.log[n - 1].id.Absent? then s.writing else s.writing + {n})
    case Send(n, error, result, encodes) =>
      if n !in s.writing || !(1 <= n <= |s.log|) then s
      else s.(writing := s.writing - {n},
           out := if encodes then s.out + [AnswerTo(IdText(s.log[n - 1].id), error, result, wrap)] else s.out)
  }

  /** A run, which ends with the first refused request. */
  function Replay(s: Session, steps: seq<Step>, wrap: bytes -> bytes): Session
    decreases |steps|
  {
    if steps == [] then s
    else if !steps[0].Goes() then Next(s, steps[0], wrap)
    else Replay(Next(s, steps[0], wrap), steps[1..], wrap)
  }

  /** The requests accepted by a run. */
  function Accepted(steps: seq<Step>): seq<Object>
    decreases |steps|
  {
    if steps == [] || !steps[0].Goes() then []
    else if steps[0].Read? then [steps[0].input.o] + Accepted(steps[1..])
    else Accepted(steps[1..])
  }

  /** When nothing is pending or being written, every accepted request with an ID has had exactly one
      answer, bearing that ID, unless the encoder rejected it; and no notification has had any. */
  lemma Settled(c: ServerCodec, n: int)
    requires c.Correlated() && c.pending == map[] && c.writing == map[] && 1 <= n <= |c.log|
    ensures c.log[n - 1].id.Absent? ==> forall k | 0 <= k < |c.out| && c.out[k].Answer? :: c.owner[k] != n
    ensures !c.log[n - 1].id.Absent? && !c.fate[n - 1].Lost? ==>
              exists k :: 0 <= k < |c.out| && c.out[k].Answer? && c.owner[k] == n && c.out[k].id == IdText(c.log[n - 1].id)
                          && forall j | 0 <= j < |c.out| && c.out[j].Answer? && c.owner[j] == n :: j == k
  {
    assert c.InPlace(n);
    if c.fate[n - 1].Answered? {
      var k := c.fate[n - 1].k;
      assert c.out[k].Answer? && c.owner[k] == n;
    }
  }

  lemma {:induction false} ReplayLog(s: Session, steps: seq<Step>, wrap: bytes -> bytes)
    ensures Replay(s, steps, wrap).log == s.log + Accepted(steps)
    decreases |steps|
  {
    if steps != [] && steps[0].Goes() {
      ReplayLog(Next(s, steps[0], wrap), steps[1..], wrap);
    }
  }

  /** Why a refused request ends the codec: any request that is refused for its HTTP method after it
      brought an ID leaves the ID's cell behind. The next notification then looks like a request with
      an empty ID, and if the refused ID was null, the next ID is written over the package's `null`. */
  method AfterRefusal(c: ServerCodec, first: Object, next: Object) returns (ok: bool)
    requires c.Correlated() && |c.log| < 0x7FFF_FFFF_FFFF_FFFF && first.Counted() && next.Counted()
    requires Acceptable(first) && !first.id.Absent? && !next.id.Null?
    modifies c, c.cells
    ensures ok == Acceptable(next) && c.reqID != null && c.reqID.text == IdText(next.id)
    ensures first.id.Null? ==> c.null_.text == IdText(next.id)
  {
    var refused, id := c.ReadHeader(Json(first, false));
    ok := c.UnmarshalJSON(next);
  }

  lemma {:induction false} ReplaySplit(s: Session, a: seq<Step>, b: seq<Step>, wrap: bytes -> bytes)
    requires forall i | 0 <= i < |a| :: a[i].Goes()
    ensures Replay(s, a + b, wrap) == Replay(Replay(s, a, wrap), b, wrap)
    decreases |a|
  {
    if a == [] {
      assert [] + b == b;
    } else {
      assert (a + b)[0] == a[0] && (a + b)[1..] == a[1..] + b;
      ReplaySplit(Next(s, a[0], wrap), a[1..], b, wrap);
    }
  }

  lemma {:induction false} OutGrows(s: Session, steps: seq<Step>, wrap: bytes -> bytes)
    ensures s.out <= Replay(s, steps, wrap).out
    decreases |steps|
  {
    if steps != [] && steps[0].Goes() {
      OutGrows(Next(s, steps[0], wrap), steps[1..], wrap);
    }
  }

  /** Along a run, a Send of a number that is being written puts one reply behind those there are, and
      it stays: with the request's ID; with no error, the result given, or `null` if none is; with an
      error, the text itself if it is an object's, else the wrapped text, and the result as given. */
  lemma RunReply(s: Session, a: seq<Step>, send: Step, b: seq<Step>, wrap: bytes -> bytes)
    requires forall i | 0 <= i < |a| :: a[i].Goes()
    requires var mid := Replay(s, a, wrap);
             send.Send? && send.encodes && send.n in mid.writing && 1 <= send.n <= |mid.log|
    ensures var mid, end := Replay(s, a, wrap), Replay(s, a + [send] + b, wrap);
            && mid.out <= end.out && |mid.out| < |end.out|
            && var r, req := end.out[|mid.out|], mid.log[send.n - 1].id;
            && r.Answer?
            && (req.Text? ==> r.id == req.text) && (req.Null? ==> r.id == [0x6e, 0x75, 0x6c, 0x6c])
            && (send.error == [] && send.result.Raw? ==> r.result == send.result && r.error == Omitted)
            && (send.error == [] && send.result.Omitted? ==> r.result == Raw([0x6e, 0x75, 0x6c, 0x6c]) && r.error == Omitted)
            && (send.error != [] ==> r.result == send.result)
            && (send.error != [] && send.error[0] == 0x7b && send.error[|send.error| - 1] == 0x7d ==> r.error == Raw(send.error))
            && (send.error != [] && (send.error[0] != 0x7b || send.error[|send.error| - 1] != 0x7d) ==> r.error == Raw(wrap(send.error)))
  {
    var mid := Replay(s, a, wrap);
    assert a + [send] + b == a + ([send] + b);
    ReplaySplit(s, a, [send] + b, wrap);
    assert ([send] + b)[1..] == b;
    OutGrows(Next(mid, send, wrap), b, wrap);
  }

  function AnswerTo(id: bytes, error: bytes, result: Out, wrap: bytes -> bytes): Reply {
    if error == [] then Answer(id, if result.Omitted? then Raw(NullText) else result, Omitted)
    else if error[0] == 0x7b && error[|error| - 1] == 0x7d then Answer(id, result, Raw(error))
    else Answer(id, result, Raw(wrap(error)))
  }


  lemma Appended<T>(s: seq<T>, x: T)
    ensures forall i | 0 <= i < |s| :: (s + [x])[i] == s[i]
    ensures (s + [x])[|s|] == x
  {
  }
}
