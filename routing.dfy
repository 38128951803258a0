/** The per-message decision of the relay (on_message in producer.py): decode
    the inbound text, look up its `evseUId`, and forward the decoded object to
    the queue when that identifier is in the target set.

    JSON decoding and encoding are library calls and stay abstract: the model
    receives what json.loads produced (a value or a decode failure), and a
    published body is the re-serialisation `Dumps(value)` of the decoded value. */
module Routing {

  /** The key whose value identifies the station in an inbound message. */
  const ID_KEY: string := "evseUId"

  /** A decoded JSON value. Numbers stay as their text: they are never
      compared, only carried along. */
  datatype Json =
    | Null
    | Bool(b: bool)
    | Number(text: string)
    | Str(s: string)
    | Array(items: seq<Json>)
    | Object(fields: map<string, Json>)

  /** What json.loads returned for the inbound text. */
  datatype Decoded = Malformed | Value(json: Json)

  /** A message body handed to the queue: json.dumps of a decoded value. */
  datatype Payload = Dumps(json: Json)

  /** The exceptions on_message catches. */
  datatype DataError =
    | DecodeFailed    // json.loads raised
    | NotAnObject     // `.get` on a list, string, number, boolean or null
    | UnhashableId    // the identifier is a list or an object: set membership raises
    | SendFailed      // send_message raised

  /** The decision for one message, before the send is attempted. */
  datatype Decision = Forward(id: string, payload: Payload) | Skip | Reject(error: DataError)

  /** What handling one message came to. */
  datatype Outcome = Forwarded(id: string) | Skipped | Contained(error: DataError)

  /** `data.get('evseUId', "")` on a decoded object. */
  function IdOf(fields: map<string, Json>): Json {
    if ID_KEY in fields then fields[ID_KEY] else Str("")
  }

  /** The matching rule: exact, case-sensitive membership of the identifier
      in the target set. Only a string can equal a member; null, booleans and
      numbers are hashable but never equal to a string. */
  function Route(d: Decoded, targets: set<string>): Decision {
    match d
    case Malformed => Reject(DecodeFailed)
    case Value(json) =>
      if !json.Object? then Reject(NotAnObject)
      else
        match IdOf(json.fields)
        case Str(id) => if id in targets then Forward(id, Dumps(json)) else Skip
        case Array(_) => Reject(UnhashableId)
        case Object(_) => Reject(UnhashableId)
        case _ => Skip
  }

  /** The sends one message causes: one body when it is forwarded, none
      otherwise. */
  function SendsFor(d: Decoded, targets: set<string>): seq<Payload> {
    match Route(d, targets)
    case Forward(_, payload) => [payload]
    case _ => []
  }

  /** The sends a whole stream of messages causes, in arrival order. */
  function Sends(ds: seq<Decoded>, targets: set<string>): seq<Payload> {
    if ds == [] then [] else SendsFor(ds[0], targets) + Sends(ds[1..], targets)
  }

  /** The station identifier of a decoded object, when it is a string (absent
      counts as the empty string). */
  predicate HasStringId(d: Decoded, id: string) {
    d.Value? && d.json.Object? && IdOf(d.json.fields) == Str(id)
  }

  /** A message is forwarded if and only if it decodes to an object whose
      identifier, defaulting to "", is a member of the target set; the body
      forwarded is the whole decoded object re-serialised. */
  lemma ForwardedIffMember(d: Decoded, targets: set<string>)
    ensures Route(d, targets).Forward?
        <==> exists id :: HasStringId(d, id) && id in targets
    ensures Route(d, targets).Forward? ==>
              HasStringId(d, Route(d, targets).id) && Route(d, targets).payload == Dumps(d.json)
  {
    if d.Value? && d.json.Object? && IdOf(d.json.fields).Str? {
      assert HasStringId(d, IdOf(d.json.fields).s);
    }
  }

  /** A message without the identifier key is treated as having the empty
      identifier: it is forwarded exactly when "" is a target. */
  lemma MissingIdIsEmpty(fields: map<string, Json>, targets: set<string>)
    requires ID_KEY !in fields
    ensures Route(Value(Object(fields)), targets).Forward? <==> "" in targets
  {
  }

  /** Membership is exact: an identifier that differs from every target in any
      way, letter case included, is skipped and causes no send. */
  lemma NoMatchNoSend(d: Decoded, id: string, targets: set<string>)
    requires HasStringId(d, id) && id !in targets
    ensures Route(d, targets) == Skip && SendsFor(d, targets) == []
  {
  }

  /** A message that fails to decode, is not an object, or carries an
      unhashable identifier is rejected and causes no send. */
  lemma RejectedNoSend(d: Decoded, targets: set<string>)
    ensures (d.Malformed? || !d.json.Object?) ==> Route(d, targets) == Reject(if d.Malformed? then DecodeFailed else NotAnObject)
    ensures d.Value? && d.json.Object? && (IdOf(d.json.fields).Array? || IdOf(d.json.fields).Object?) ==>
              Route(d, targets) == Reject(UnhashableId)
    ensures Route(d, targets).Reject? ==> SendsFor(d, targets) == []
  {
  }

  /** Each message's sends depend on that message alone, so the sends of a
      stream split along any split of the stream. */
  lemma {:induction false} SendsAppend(a: seq<Decoded>, b: seq<Decoded>, targets: set<string>)
    ensures Sends(a + b, targets) == Sends(a, targets) + Sends(b, targets)
  {
    if a == [] {
      assert a + b == b;
    } else {
      assert (a + b)[0] == a[0];
      assert (a + b)[1..] == a[1..] + b;
      SendsAppend(a[1..], b, targets);
    }
  }

  /** A bad message in the middle of a stream changes nothing for the messages
      around it. */
  lemma BadMessageContained(a: seq<Decoded>, b: seq<Decoded>, targets: set<string>)
    ensures Sends(a + [Malformed] + b, targets) == Sends(a, targets) + Sends(b, targets)
  {
    var bad: seq<Decoded> := [Malformed];
    assert Sends(bad, targets) == [] by {
      assert bad[1..] == [];
    }
    SendsAppend(a + bad, b, targets);
    SendsAppend(a, bad, targets);
  }

  /** The positions in a stream whose message is forwarded. */
  function ForwardedAt(ds: seq<Decoded>, targets: set<string>): set<nat> {
    set i: nat | i < |ds| && Route(ds[i], targets).Forward?
  }

  /** The stream causes exactly one send per forwarded message. */
  lemma {:induction false} SendsCount(ds: seq<Decoded>, targets: set<string>)
    ensures |Sends(ds, targets)| == |ForwardedAt(ds, targets)|
  {
    if ds != [] {
      var n := |ds| - 1;
      var a := ds[..n];
      assert ds == a + [ds[n]];
      SendsAppend(a, [ds[n]], targets);
      assert Sends([ds[n]], targets) == SendsFor(ds[n], targets) by {
        assert [ds[n]][1..] == [];
      }
      SendsCount(a, targets);
      var A := ForwardedAt(a, targets);
      var B := ForwardedAt(ds, targets);
      assert n !in A;
      if Route(ds[n], targets).Forward? {
        assert B == A + {n} by {
          forall i: nat ensures i in B <==> i in A + {n} {
            if i < n { assert a[i] == ds[i]; }
          }
        }
      } else {
        assert B == A by {
          forall i: nat ensures i in B <==> i in A {
            if i < n { assert a[i] == ds[i]; }
          }
        }
      }
    }
  }

  /** The stream's sends are, as a set, exactly the bodies of its forwarded
      messages, and there is exactly one send per forwarded message. */
  lemma {:induction false} SendsAreForwardedBodies(ds: seq<Decoded>, targets: set<string>)
    ensures |Sends(ds, targets)| == |ForwardedAt(ds, targets)| <= |ds|
    ensures forall p :: p in Sends(ds, targets) <==>
              exists i :: 0 <= i < |ds| && Route(ds[i], targets).Forward? && Route(ds[i], targets).payload == p
  {
    SendsCount(ds, targets);
    if ds != [] {
      SendsAreForwardedBodies(ds[1..], targets);
      forall p
        ensures p in Sends(ds, targets) <==>
          exists i :: 0 <= i < |ds| && Route(ds[i], targets).Forward? && Route(ds[i], targets).payload == p
      {
        if p in Sends(ds[1..], targets) {
          var i :| 0 <= i < |ds[1..]| && Route(ds[1..][i], targets).Forward? && Route(ds[1..][i], targets).payload == p;
          assert ds[i + 1] == ds[1..][i];
        }
        if exists i :: 0 <= i < |ds| && Route(ds[i], targets).Forward? && Route(ds[i], targets).payload == p {
          var i :| 0 <= i < |ds| && Route(ds[i], targets).Forward? && Route(ds[i], targets).payload == p;
          if i > 0 {
            assert ds[1..][i - 1] == ds[i];
          }
        }
      }
    }
  }

  /** The handler of inbound messages, holding the target set and the record
      of every call made to the queue's send. */
  class Relay {
    const targets: set<string>
    var sent: seq<Payload>

    constructor (targets: set<string>)
      ensures this.targets == targets && sent == []
    {
      this.targets := targets;
      sent := [];
    }

    /** Handles one decoded message. `sendOk` is whether the queue accepts the
        send, if one is made. Every failure is contained in the outcome. */
    method OnMessage(d: Decoded, sendOk: bool) returns (outcome: Outcome)
      modifies this
      ensures sent == old(sent) + SendsFor(d, targets)
      ensures outcome == match Route(d, targets)
                         case Forward(id, _) => if sendOk then Forwarded(id) else Contained(SendFailed)
                         case Skip => Skipped
                         case Reject(e) => Contained(e)
    {
      var decision := Route(d, targets);
      match decision
      case Forward(id, payload) =>
        sent := sent + [payload];
        outcome := if sendOk then Forwarded(id) else Contained(SendFailed);
      case Skip =>
        outcome := Skipped;
      case Reject(e) =>
        outcome := Contained(e);
    }
  }
}
