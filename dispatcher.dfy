/**
 * The outgoing-request half of lsp::MessageDispatcher (lsp/messagedispatcher.cpp):
 * request ids from a counter that only goes up, a table of pending requests
 * keyed by id, and the resolution of each pending request's continuation by
 * the response that carries its id. Everything runs on one thread here; the
 * mutex and the atomic counter carry no logic of their own.
 */
module Dispatch {
  import opened Ascii

  /** A JSON value, as far as the dispatcher passes it around. */
  datatype Json =
    | Null
    | Bool(b: bool)
    | Number(n: int)
    | String(s: string)
    | Array(items: seq<Json>)
    | Object(members: seq<(string, Json)>)

  /** jsonrpc::MessageId: an integer or a string. */
  datatype MessageId = IntId(n: int) | StringId(s: string)

  /** The body of a jsonrpc::Response: a result or an error, never both. */
  datatype ResponseBody =
    | Result(value: Json)
    | Error(code: int, message: string, data: Option<Json>)

  datatype Response = Response(id: MessageId, body: ResponseBody)

  /** The envelopes the dispatcher hands to the connection. */
  datatype Envelope =
    | RequestMsg(id: MessageId, methodName: string, params: Option<Json>)
    | NotificationMsg(methodName: string, params: Option<Json>)

  /** The exceptions a continuation can be resolved with: the json::TypeError
      of a result that does not deserialise, or a ResponseError built from an
      error response. */
  datatype Fault =
    | TypeError
    | ResponseError(code: int, message: string, data: Option<Json>)

  /** How a continuation was resolved. */
  datatype Outcome = Value(json: Json) | Failed(fault: Fault)

  /** The Connection: only its log of written envelopes is modelled. */
  class Connection {
    var sent: seq<Envelope>

    constructor ()
      ensures sent == []
    {
      sent := [];
    }

    /** Connection::sendRequest writes one envelope. */
    method SendRequest(envelope: Envelope)
      modifies this
      ensures sent == old(sent) + [envelope]
    {
      sent := sent + [envelope];
    }
  }

  /** The counter behind nextUniqueRequestId (a function-local static, shared
      by every dispatcher of the process). */
  class UniqueRequestIds {
    var last: int

    constructor ()
      ensures last == 0
    {
      last := 0;
    }

    /** nextUniqueRequestId: pre-increments the counter and returns it, so
        each id is one more than the one before and the first one is 1. */
    method Next() returns (id: int)
      modifies this
      ensures id == old(last) + 1 && last == id
    {
      last := last + 1;
      id := last;
    }
  }

  /** RequestResultBase: a continuation resolved at most once. Whether
      setValueFromJson manages to deserialise a given JSON value into the
      expected result type is the function `decodes`. */
  class RequestResult {
    const decodes: Json -> bool
    var outcome: Option<Outcome>

    constructor (decodes: Json -> bool)
      ensures this.decodes == decodes && outcome == None
    {
      this.decodes := decodes;
      outcome := None;
    }

    /** setValueFromJson: resolves with the value, or raises json::TypeError
        (reported as `typeError`) and stays unresolved. */
    method SetValueFromJson(json: Json) returns (typeError: bool)
      requires outcome == None
      modifies this
      ensures typeError == !decodes(json)
      ensures outcome == if typeError then None else Some(Value(json))
    {
      if decodes(json) {
        outcome := Some(Value(json));
        return false;
      }
      return true;
    }

    /** setException: resolves with an exception. */
    method SetException(e: Fault)
      requires outcome == None
      modifies this
      ensures outcome == Some(Failed(e))
    {
      outcome := Some(Failed(e));
    }
  }

  /*
   * The pending-request table as a value
   */

  type Table = map<MessageId, RequestResult>

  /** What onResponse resolves a continuation with: the result when it
      deserialises, the TypeError when it does not, and a ResponseError with
      the response's code, message and data for an error response. */
  function Resolution(body: ResponseBody, decodes: Json -> bool): Outcome
  {
    match body
    case Result(v) => if decodes(v) then Value(v) else Failed(TypeError)
    case Error(code, message, data) => Failed(ResponseError(code, message, data))
  }

  /** The table after one response: its entry, if any, is taken out. */
  function AfterResponse(t: Table, r: Response): Table
  {
    if r.id in t then t - {r.id} else t
  }

  /** The resolutions one response causes: one for a pending id, none for
      an unknown one. */
  function ResolvedBy(t: Table, r: Response): seq<(MessageId, Outcome)>
  {
    if r.id in t then [(r.id, Resolution(r.body, t[r.id].decodes))] else []
  }

  /** The table after a batch of responses handled in order. */
  function AfterBatch(t: Table, rs: seq<Response>): Table
  {
    if rs == [] then t else AfterResponse(AfterBatch(t, rs[..|rs| - 1]), rs[|rs| - 1])
  }

  /** The resolutions a batch of responses causes, in order. */
  function ResolvedByBatch(t: Table, rs: seq<Response>): seq<(MessageId, Outcome)>
  {
    if rs == [] then []
    else ResolvedByBatch(t, rs[..|rs| - 1]) + ResolvedBy(AfterBatch(t, rs[..|rs| - 1]), rs[|rs| - 1])
  }

  function Ids(log: seq<(MessageId, Outcome)>): set<MessageId>
  {
    set i | 0 <= i < |log| :: log[i].0
  }

  predicate DistinctIds(log: seq<(MessageId, Outcome)>)
  {
    forall i, j :: 0 <= i < j < |log| ==> log[i].0 != log[j].0
  }

  function IdsOf(rs: seq<Response>): set<MessageId>
  {
    set i | 0 <= i < |rs| :: rs[i].id
  }

  /** Each resolution in `log` is the outcome now held by the continuation
      that `t` files under its id. */
  ghost predicate Delivered(t: Table, log: seq<(MessageId, Outcome)>)
    reads t.Values
  {
    forall k :: 0 <= k < |log| ==> log[k].0 in t && t[log[k].0].outcome == Some(log[k].1)
  }

  /** A resolved continuation holds an outcome and a pending one does not,
      so none delivered so far is still pending. */
  lemma DeliveredNotPending(t: Table, log: seq<(MessageId, Outcome)>, p0: Table)
    requires Delivered(t, log)
    requires forall id :: id in p0 ==> p0[id].outcome == None
    ensures forall k :: 0 <= k < |log| ==> t[log[k].0] !in p0.Values
  {
  }

  /** A batch takes out of the table exactly the ids it carries, and keeps
      every other entry as it was. */
  lemma {:induction false} AfterBatchEntries(t: Table, rs: seq<Response>)
    ensures AfterBatch(t, rs).Keys == t.Keys - IdsOf(rs)
    ensures forall id :: id in AfterBatch(t, rs) ==> AfterBatch(t, rs)[id] == t[id]
  {
    if rs != [] {
      var front := rs[..|rs| - 1];
      AfterBatchEntries(t, front);
      assert IdsOf(rs) == IdsOf(front) + {rs[|rs| - 1].id} by {
        assert forall i :: 0 <= i < |front| ==> front[i] == rs[i];
      }
    }
  }

  /** Every continuation of the table whose id the batch carries is resolved
      exactly once, and no other is: the ids resolved are distinct and are
      exactly the pending ids the batch carries. */
  lemma {:induction false} BatchResolvesOnce(t: Table, rs: seq<Response>)
    ensures DistinctIds(ResolvedByBatch(t, rs))
    ensures Ids(ResolvedByBatch(t, rs)) == t.Keys * IdsOf(rs)
  {
    if rs != [] {
      var front := rs[..|rs| - 1];
      var r := rs[|rs| - 1];
      var before := ResolvedByBatch(t, front);
      BatchResolvesOnce(t, front);
      AfterBatchEntries(t, front);
      assert IdsOf(rs) == IdsOf(front) + {r.id} by {
        assert forall i :: 0 <= i < |front| ==> front[i] == rs[i];
      }
      var step := ResolvedBy(AfterBatch(t, front), r);
      var log := before + step;
      assert log == ResolvedByBatch(t, rs) by {
        assert rs[..|rs| - 1] == front;
      }
      assert Ids(log) == Ids(before) + Ids(step) by {
        assert forall i :: 0 <= i < |before| ==> log[i] == before[i];
        assert forall i :: 0 <= i < |step| ==> log[|before| + i] == step[i];
      }
      if r.id in AfterBatch(t, front) {
        assert r.id in t.Keys && r.id !in IdsOf(front);
        assert r.id !in Ids(before);
        assert |step| == 1 && step[0].0 == r.id;
        assert Ids(step) == {r.id};
        forall i, j | 0 <= i < j < |log|
          ensures log[i].0 != log[j].0
        {
          if j == |before| {
            assert log[i] == before[i];
            assert before[i].0 in Ids(before);
          } else {
            assert log[i] == before[i] && log[j] == before[j];
          }
        }
      } else {
        assert step == [] && log == before;
      }
    }
  }

  /** One more response of a batch: the table loses its entry, the log gains
      its resolution, and every id resolved so far is in the original table
      and no longer pending. */
  lemma BatchStep(t: Table, batch: seq<Response>, i: nat)
    requires i < |batch|
    ensures AfterBatch(t, batch[..i + 1]) == AfterResponse(AfterBatch(t, batch[..i]), batch[i])
    ensures ResolvedByBatch(t, batch[..i + 1])
         == ResolvedByBatch(t, batch[..i]) + ResolvedBy(AfterBatch(t, batch[..i]), batch[i])
    ensures Ids(ResolvedByBatch(t, batch[..i])) <= t.Keys - AfterBatch(t, batch[..i]).Keys
    ensures forall id :: id in AfterBatch(t, batch[..i]) ==> id in t && AfterBatch(t, batch[..i])[id] == t[id]
  {
    assert batch[..i + 1][..i] == batch[..i];
    assert batch[..i + 1][i] == batch[i];
    AfterBatchEntries(t, batch[..i]);
    BatchResolvesOnce(t, batch[..i]);
  }

  /*
   * The dispatcher
   */

  class MessageDispatcher {
    const connection: Connection
    const ids: UniqueRequestIds
    var pending: Table
    /** Every resolution so far, in order: the id and the outcome. */
    ghost var resolutions: seq<(MessageId, Outcome)>

    /** Each pending id came from the counter and has not been resolved yet,
        each continuation is pending under one id only and is unresolved, and
        no id has been resolved twice. */
    ghost predicate Valid()
      reads this, ids, pending.Values
    {
      && ids.last >= 0
      && (forall id :: id in pending ==> id.IntId? && 1 <= id.n <= ids.last)
      && (forall i :: 0 <= i < |resolutions| ==> resolutions[i].0.IntId? && resolutions[i].0.n <= ids.last)
      && (forall id :: id in pending ==> id !in Ids(resolutions))
      && (forall id :: id in pending ==> pending[id].outcome == None)
      && (forall a, b :: a in pending && b in pending && a != b ==> pending[a] != pending[b])
      && DistinctIds(resolutions)
    }

    /** MessageDispatcher::MessageDispatcher(Connection&). */
    constructor (connection: Connection, ids: UniqueRequestIds)
      requires ids.last >= 0
      ensures Valid()
      ensures this.connection == connection && this.ids == ids
      ensures pending == map[] && resolutions == []
    {
      this.connection := connection;
      this.ids := ids;
      pending := map[];
      resolutions := [];
    }

    /** MessageDispatcher::sendRequest: takes the next id, files the
        continuation under it and writes one request envelope with that id,
        the method and the parameters. */
    method SendRequest(methodName: string, result: RequestResult, params: Option<Json>) returns (messageId: MessageId)
      requires Valid() && result.outcome == None && result !in pending.Values
      modifies this, ids, connection
      ensures Valid()
      ensures messageId == IntId(old(ids.last) + 1) && messageId !in old(pending)
      ensures messageId !in Ids(resolutions)
      ensures pending == old(pending)[messageId := result] && resolutions == old(resolutions)
      ensures connection.sent == old(connection.sent) + [RequestMsg(messageId, methodName, params)]
    {
      var n := ids.Next();
      messageId := IntId(n);
      pending := pending[messageId := result];
      connection.SendRequest(RequestMsg(messageId, methodName, params));
    }

    /** MessageDispatcher::sendNotification: writes one notification
        envelope; neither the table nor the counter is touched. */
    method SendNotification(methodName: string, params: Option<Json>)
      modifies connection
      ensures connection.sent == old(connection.sent) + [NotificationMsg(methodName, params)]
      ensures pending == old(pending) && ids.last == old(ids.last)
    {
      var notification := NotificationMsg(methodName, params);
      connection.SendRequest(notification);
    }

    /** MessageDispatcher::onResponse: the continuation pending under the
        response's id, if any, leaves the table and is resolved once; a
        response with an unknown id changes nothing. */
    method OnResponse(response: Response)
      requires Valid()
      modifies this, if response.id in pending then {pending[response.id]} else {}
      ensures Valid()
      ensures pending == AfterResponse(old(pending), response)
      ensures resolutions == old(resolutions) + ResolvedBy(old(pending), response)
      ensures response.id in old(pending) ==>
        old(pending)[response.id].outcome == Some(Resolution(response.body, old(pending)[response.id].decodes))
    {
      if response.id !in pending {
        return;
      }
      var result := pending[response.id];
      pending := pending - {response.id};
      var outcome := Resolution(response.body, result.decodes);
      match response.body {
        case Result(v) =>
          var typeError := result.SetValueFromJson(v);
          if typeError {
            result.SetException(TypeError);
          }
        case Error(code, message, data) =>
          result.SetException(ResponseError(code, message, data));
      }
      resolutions := resolutions + [(response.id, outcome)];
      assert Ids(resolutions) == Ids(old(resolutions)) + {response.id} by {
        assert forall i :: 0 <= i < |old(resolutions)| ==> resolutions[i] == old(resolutions)[i];
        assert resolutions[|resolutions| - 1].0 == response.id;
      }
    }

    /** One step of onResponseBatch: onResponse for `response`, where every
        pending continuation is the one `t` files under the same id and `log`
        has been delivered; afterwards the new resolution has been too. */
    method DeliverNext(response: Response, ghost t: Table, ghost log: seq<(MessageId, Outcome)>)
      requires Valid() && Delivered(t, log)
      requires forall id :: id in pending ==> id in t && pending[id] == t[id]
      modifies this, if response.id in pending then {pending[response.id]} else {}
      ensures Valid()
      ensures pending == AfterResponse(old(pending), response)
      ensures resolutions == old(resolutions) + ResolvedBy(old(pending), response)
      ensures Delivered(t, log + ResolvedBy(old(pending), response))
    {
      ghost var p0 := pending;
      DeliveredNotPending(t, log, p0);
      OnResponse(response);
      ghost var step := ResolvedBy(p0, response);
      forall k | 0 <= k < |log + step|
        ensures (log + step)[k].0 in t && t[(log + step)[k].0].outcome == Some((log + step)[k].1)
      {
        if k < |log| {
          assert (log + step)[k] == log[k];
        } else {
          assert (log + step)[k] == step[k - |log|];
        }
      }
    }

    /** MessageDispatcher::onResponseBatch: onResponse for each response, in
        order; each continuation pending under an id the batch carries ends
        up holding its resolution. */
    method OnResponseBatch(batch: seq<Response>)
      requires Valid()
      modifies this, pending.Values
      ensures Valid()
      ensures pending == AfterBatch(old(pending), batch)
      ensures resolutions == old(resolutions) + ResolvedByBatch(old(pending), batch)
      ensures Delivered(old(pending), ResolvedByBatch(old(pending), batch))
    {
      ghost var t := pending;
      ghost var log := [];
      for i := 0 to |batch|
        invariant Valid()
        invariant pending == AfterBatch(t, batch[..i])
        invariant log == ResolvedByBatch(t, batch[..i])
        invariant resolutions == old(resolutions) + log
        invariant Delivered(t, log)
      {
        ghost var p0 := pending;
        BatchStep(t, batch, i);
        DeliverNext(batch[i], t, log);
        log := log + ResolvedBy(p0, batch[i]);
      }
      assert batch[..|batch|] == batch;
    }
  }
}
