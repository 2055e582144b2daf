/**
 * The in-memory publish/subscribe broker (`PubSubBroker`): a registry of live websocket
 * sessions, each with its set of subscribed topics. JavaScript runs the event handlers one
 * at a time, so every handler is one sequential method here.
 */
module Broker {
  import opened Wrappers
  import opened Text

  /** An inbound websocket frame after JSON decoding. */
  datatype Message =
    /** `{action: "subscribe", topic}` */
    | Subscribe(topic: string)
    /** `{action: "publish", topic, ...}`; `serialized` is `JSON.stringify` of the decoded object, forwarded verbatim */
    | Publish(topic: string, serialized: string)
    /** Valid JSON whose `action` is neither "subscribe" nor "publish" */
    | Other
    /** A frame `JSON.parse` rejects */
    | Malformed

  /**
   * One accepted websocket with its topic set. `sendFails` says whether `webSocket.send`
   * throws for this socket (a dead or closing connection).
   */
  class Session {
    var subscriptions: set<string>
    const sendFails: bool

    constructor (sendFails: bool)
      ensures subscriptions == {} && this.sendFails == sendFails
    {
      subscriptions := {};
      this.sendFails := sendFails;
    }
  }

  /** One frame written to a socket: the session it went to and its text. */
  datatype Delivery = Delivery(to: Session, text: string)

  /** No element occurs twice. */
  predicate Distinct<T(==)>(ss: seq<T>) {
    ss == [] || (ss[0] !in ss[1..] && Distinct(ss[1..]))
  }

  /** In a sequence without duplicates, different positions hold different elements. */
  lemma {:induction false} DistinctIndex<T>(ss: seq<T>, i: nat, j: nat)
    requires Distinct(ss) && i < |ss| && j < |ss| && i != j
    ensures ss[i] != ss[j]
  {
    if i == 0 {
      assert ss[j] == ss[1..][j - 1];
    } else if j == 0 {
      assert ss[i] == ss[1..][i - 1];
    } else {
      DistinctIndex(ss[1..], i - 1, j - 1);
    }
  }

  /** Appending an element that is not there yet keeps a sequence free of duplicates. */
  lemma {:induction false} DistinctAppend<T>(ss: seq<T>, x: T)
    requires Distinct(ss) && x !in ss
    ensures Distinct(ss + [x])
  {
    if ss != [] {
      assert (ss + [x])[1..] == ss[1..] + [x];
      DistinctAppend(ss[1..], x);
    } else {
      assert ss + [x] == [x];
      assert [x][1..] == [];
    }
  }

  /** `ss.filter(x => x !== s)`: every element except `s`, in the original order. */
  function Without<T(==)>(ss: seq<T>, s: T): (rest: seq<T>)
    ensures forall i :: 0 <= i < |rest| ==> rest[i] in ss && rest[i] != s
    ensures forall i :: 0 <= i < |ss| && ss[i] != s ==> ss[i] in rest
  {
    if ss == [] then []
    else
      assert ss == [ss[0]] + ss[1..];
      (if ss[0] == s then [] else [ss[0]]) + Without(ss[1..], s)
  }

  /** The elements of `ss` that are not in `gone`, in the original order. */
  function RemoveAll<T(==)>(ss: seq<T>, gone: set<T>): seq<T>
  {
    if ss == [] then []
    else RemoveAll(ss[..|ss| - 1], gone) + (if ss[|ss| - 1] in gone then [] else [ss[|ss| - 1]])
  }

  /** `RemoveAll` keeps exactly the elements outside `gone`. */
  lemma {:induction false} RemoveAllMembers<T>(ss: seq<T>, gone: set<T>, x: T)
    ensures x in RemoveAll(ss, gone) <==> x in ss && x !in gone
  {
    if ss != [] {
      RemoveAllMembers(ss[..|ss| - 1], gone, x);
      assert ss == ss[..|ss| - 1] + [ss[|ss| - 1]];
    }
  }

  /** Removing an element that is not there changes nothing. */
  lemma {:induction false} WithoutAbsent<T>(ss: seq<T>, s: T)
    requires s !in ss
    ensures Without(ss, s) == ss
  {
    if ss != [] {
      WithoutAbsent(ss[1..], s);
      assert [ss[0]] + ss[1..] == ss;
    }
  }

  /** Removal distributes over concatenation. */
  lemma {:induction false} WithoutConcat<T>(a: seq<T>, b: seq<T>, s: T)
    ensures Without(a + b, s) == Without(a, s) + Without(b, s)
  {
    if a != [] {
      assert (a + b)[1..] == a[1..] + b;
      WithoutConcat(a[1..], b, s);
    } else {
      assert a + b == b;
    }
  }

  /** In a registry without duplicates, removing the element at `i` keeps all others in their order. */
  lemma {:induction false} WithoutAt<T>(ss: seq<T>, i: nat)
    requires Distinct(ss) && i < |ss|
    ensures Without(ss, ss[i]) == ss[..i] + ss[i + 1..]
  {
    var s := ss[i];
    var before, after := ss[..i], ss[i + 1..];
    DistinctAt(ss, i);
    assert ss == before + ([s] + after);
    assert Without(before, s) == before by {
      WithoutAbsent(before, s);
    }
    assert Without([s] + after, s) == after by {
      WithoutConcat([s], after, s);
      WithoutAbsent(after, s);
      assert Without([s], s) == [];
    }
    WithoutConcat(before, [s] + after, s);
  }

  /** In a sequence without duplicates, the element at `i` occurs neither before nor after `i`. */
  lemma {:induction false} DistinctAt<T>(ss: seq<T>, i: nat)
    requires Distinct(ss) && i < |ss|
    ensures ss[i] !in ss[..i] && ss[i] !in ss[i + 1..]
  {
    forall j | 0 <= j < i ensures ss[..i][j] != ss[i] {
      DistinctIndex(ss, j, i);
    }
    forall j | i < j < |ss| ensures ss[j] != ss[i] {
      DistinctIndex(ss, j, i);
    }
  }

  /** Removing twice is removing once: a close followed by an error on the same socket is harmless. */
  lemma {:induction false} WithoutIdempotent<T>(ss: seq<T>, s: T)
    ensures Without(Without(ss, s), s) == Without(ss, s)
  {
    WithoutAbsent(Without(ss, s), s);
  }

  /** Removal keeps a registry free of duplicates. */
  lemma {:induction false} WithoutDistinct<T>(ss: seq<T>, s: T)
    requires Distinct(ss)
    ensures Distinct(Without(ss, s))
  {
    if ss != [] {
      WithoutDistinct(ss[1..], s);
      var rest := Without(ss[1..], s);
      if ss[0] != s {
        assert Without(ss, s) == [ss[0]] + rest;
        assert ([ss[0]] + rest)[1..] == rest;
      } else {
        assert Without(ss, s) == rest;
      }
    }
  }

  /** Closing one more session of a filtered registry is filtering by one more session. */
  lemma {:induction false} WithoutRemoveAll<T>(ss: seq<T>, gone: set<T>, s: T)
    ensures Without(RemoveAll(ss, gone), s) == RemoveAll(ss, gone + {s})
  {
    if ss != [] {
      var init, last := ss[..|ss| - 1], ss[|ss| - 1];
      WithoutRemoveAll(init, gone, s);
      WithoutConcat(RemoveAll(init, gone), if last in gone then [] else [last], s);
    }
  }

  /** Filtering by nothing keeps everything. */
  lemma {:induction false} RemoveAllNothing<T>(ss: seq<T>)
    ensures RemoveAll(ss, {}) == ss
  {
    if ss != [] {
      RemoveAllNothing(ss[..|ss| - 1]);
    }
  }

  /** Sessions that are visited by a fanout for `topic` and whose send goes through. */
  predicate Receives(x: Session, topic: string)
    reads x
  {
    topic in x.subscriptions && !x.sendFails
  }

  /** The frames a publish of `text` on `topic` writes, in registry order: one to each session of `ss` that `Receives`. */
  function Sends(ss: seq<Session>, topic: string, text: string): (frames: seq<Delivery>)
    reads ss
    ensures |frames| <= |ss|
    ensures forall i :: 0 <= i < |frames| ==>
              frames[i].text == text && frames[i].to in ss && Receives(frames[i].to, topic)
  {
    if ss == [] then []
    else
      var last := ss[|ss| - 1];
      Sends(ss[..|ss| - 1], topic, text) + if Receives(last, topic) then [Delivery(last, text)] else []
  }

  /** A prefix of a sequence without duplicates has none either. */
  lemma {:induction false} DistinctPrefix<T>(ss: seq<T>, n: nat)
    requires Distinct(ss) && n <= |ss|
    ensures Distinct(ss[..n])
  {
    if n > 0 {
      assert ss[..n][1..] == ss[1..][..n - 1];
      assert ss[0] !in ss[1..][..n - 1] by {
        assert forall y :: y in ss[1..][..n - 1] ==> y in ss[1..];
      }
      DistinctPrefix(ss[1..], n - 1);
    }
  }

  /**
   * Exactly-once delivery: over a registry without duplicates, a publish writes each frame
   * `Delivery(x, text)` once when `x` is registered and `Receives` the topic, and never otherwise.
   */
  lemma {:induction false} SendsExactlyOnce(ss: seq<Session>, topic: string, text: string, d: Delivery)
    requires Distinct(ss)
    ensures multiset(Sends(ss, topic, text))[d]
            == if d.text == text && d.to in ss && Receives(d.to, topic) then 1 else 0
  {
    if ss != [] {
      var init, last := ss[..|ss| - 1], ss[|ss| - 1];
      DistinctPrefix(ss, |ss| - 1);
      DistinctAt(ss, |ss| - 1);
      SendsExactlyOnce(init, topic, text, d);
      assert ss == init + [last];
    }
  }

  /** The status `fetch` answers with: 101 for a websocket upgrade, 426 for anything else. */
  function UpgradeStatus(upgrade: Option<string>): (status: int)
    ensures status == 101 || status == 426
    ensures status == 101 <==> upgrade.Some? && |upgrade.value| == |"websocket"|
                               && forall i :: 0 <= i < |"websocket"| ==>
                                    upgrade.value[i] == "websocket"[i] || upgrade.value[i] == "WEBSOCKET"[i]
  {
    if IsWebSocketUpgrade(upgrade) then 101 else 426
  }

  /** The subscribers of `topic` in `ss` whose socket fails on send. */
  ghost function FailingSubscribers(ss: seq<Session>, topic: string): set<Session>
    reads ss
  {
    set x | x in ss && topic in x.subscriptions && x.sendFails
  }

  /**
   * How `Sends` and `FailingSubscribers` grow along the prefixes of `ss`: position `i` adds its
   * frame when it `Receives` the topic, and itself to the failing set when it subscribes but its
   * send throws.
   */
  lemma PrefixSteps(ss: seq<Session>, topic: string, text: string)
    ensures forall i, j {:trigger Sends(ss[..i], topic, text), Sends(ss[..j], topic, text)} ::
              0 <= i < |ss| && j == i + 1 ==>
              Sends(ss[..j], topic, text)
              == Sends(ss[..i], topic, text) + if Receives(ss[i], topic) then [Delivery(ss[i], text)] else []
    ensures forall i, j {:trigger FailingSubscribers(ss[..i], topic), FailingSubscribers(ss[..j], topic)} ::
              0 <= i < |ss| && j == i + 1 ==>
              FailingSubscribers(ss[..j], topic)
              == if topic in ss[i].subscriptions && ss[i].sendFails
                 then FailingSubscribers(ss[..i], topic) + {ss[i]}
                 else FailingSubscribers(ss[..i], topic)
  {
    forall i, j | 0 <= i < |ss| && j == i + 1
      ensures Sends(ss[..j], topic, text)
              == Sends(ss[..i], topic, text) + if Receives(ss[i], topic) then [Delivery(ss[i], text)] else []
      ensures FailingSubscribers(ss[..j], topic)
              == if topic in ss[i].subscriptions && ss[i].sendFails
                 then FailingSubscribers(ss[..i], topic) + {ss[i]}
                 else FailingSubscribers(ss[..i], topic)
    {
      assert ss[..j][..i] == ss[..i];
      assert ss[..j] == ss[..i] + [ss[i]];
    }
  }

  class PubSubBroker {
    /** `this.sessions`: the live sessions, oldest first. */
    var sessions: seq<Session>
    /** Every frame the broker has written to a socket so far, in order. */
    var sent: seq<Delivery>

    ghost predicate Valid()
      reads this
    {
      Distinct(sessions)
    }

    constructor ()
      ensures Valid() && sessions == [] && sent == []
    {
      sessions := [];
      sent := [];
    }

    /** `fetch`: a request without a websocket `Upgrade` header gets 426; otherwise a new session is accepted (101). */
    method Fetch(upgrade: Option<string>, sendFails: bool) returns (status: int, accepted: Option<Session>)
      requires Valid()
      modifies this`sessions
      ensures Valid()
      ensures status == UpgradeStatus(upgrade)
      ensures status == 426 ==> accepted == None && sessions == old(sessions)
      ensures status == 101 ==> accepted.Some? && fresh(accepted.value)
                                && sessions == old(sessions) + [accepted.value]
                                && accepted.value.subscriptions == {}
    {
      if !IsWebSocketUpgrade(upgrade) {
        return 426, None;
      }
      var s := HandleSession(sendFails);
      return 101, Some(s);
    }

    /** `handleSession`: a fresh session with no subscriptions goes at the end of the registry. */
    method HandleSession(sendFails: bool) returns (s: Session)
      requires Valid()
      modifies this`sessions
      ensures Valid() && fresh(s)
      ensures sessions == old(sessions) + [s]
      ensures s.subscriptions == {} && s.sendFails == sendFails
    {
      s := new Session(sendFails);
      DistinctAppend(sessions, s);
      sessions := sessions + [s];
    }

    /** `handleClose`: drops exactly `s` from the registry, keeping the others in order. */
    method HandleClose(s: Session)
      requires Valid()
      modifies this`sessions
      ensures Valid()
      ensures sessions == Without(old(sessions), s)
    {
      WithoutDistinct(sessions, s);
      sessions := Without(sessions, s);
    }

    /** `s.webSocket.send(m)`: the frame goes out, or the call throws (`ok == false`) and nothing is written. */
    method Send(s: Session, m: string) returns (ok: bool)
      modifies this`sent
      ensures ok == !s.sendFails
      ensures sent == old(sent) + if ok then [Delivery(s, m)] else []
    {
      ok := !s.sendFails;
      if ok {
        sent := sent + [Delivery(s, m)];
      }
    }

    /** `handleMessage`: subscribe adds one topic to `s`, publish fans out, anything else is ignored. */
    method HandleMessage(s: Session, msg: Message)
      requires Valid()
      modifies this, s`subscriptions
      ensures Valid()
      ensures !msg.Publish? ==> sessions == old(sessions) && sent == old(sent)
      ensures msg.Subscribe? ==> s.subscriptions == old(s.subscriptions) + {msg.topic}
      ensures !msg.Subscribe? ==> s.subscriptions == old(s.subscriptions)
      ensures forall x :: x in old(sessions) && x != s ==> x.subscriptions == old(x.subscriptions)
      ensures msg.Publish? ==>
                sessions == RemoveAll(old(sessions), old(FailingSubscribers(sessions, msg.topic)))
                && sent == old(sent + Sends(sessions, msg.topic, msg.serialized))
    {
      match msg
      case Malformed =>
      case Other =>
      case Subscribe(topic) =>
        s.subscriptions := s.subscriptions + {topic};
      case Publish(topic, serialized) =>
        Fanout(topic, serialized);
    }

    /**
     * One step of the fanout, for the session at position `i` of the snapshot: when it subscribes
     * to `topic` it is sent `text`, and it is closed when that send throws. `gone` holds the
     * sessions closed by the earlier steps.
     */
    method Visit(snapshot: seq<Session>, i: nat, ghost gone: set<Session>, topic: string, text: string)
      requires Valid() && i < |snapshot|
      requires sessions == RemoveAll(snapshot, gone)
      modifies this
      ensures Valid()
      ensures sessions == RemoveAll(snapshot, old(if topic in snapshot[i].subscriptions && snapshot[i].sendFails
                                                  then gone + {snapshot[i]} else gone))
      ensures sent == old(sent + if Receives(snapshot[i], topic) then [Delivery(snapshot[i], text)] else [])
    {
      var s := snapshot[i];
      if topic in s.subscriptions {
        var ok := Send(s, text);
        if !ok {
          WithoutRemoveAll(snapshot, gone, s);
          HandleClose(s);
        }
      }
    }

    /**
     * The publish branch of `handleMessage`: every session of the registry as it stood when the
     * publish began that subscribes to `topic` is sent `text`; a session whose send throws is
     * closed, and delivery goes on over the snapshot.
     */
    method Fanout(topic: string, text: string)
      requires Valid()
      modifies this
      ensures Valid()
      ensures sessions == RemoveAll(old(sessions), old(FailingSubscribers(sessions, topic)))
      ensures sent == old(sent + Sends(sessions, topic, text))
    {
      var snapshot := sessions;
      PrefixSteps(snapshot, topic, text);
      RemoveAllNothing(snapshot);
      assert FailingSubscribers(snapshot[..0], topic) == {};
      var i := 0;
      while i < |snapshot|
        invariant 0 <= i <= |snapshot|
        invariant Valid()
        invariant sessions == RemoveAll(snapshot, old(FailingSubscribers(snapshot[..i], topic)))
        invariant sent == old(sent + Sends(snapshot[..i], topic, text))
      {
        ghost var gone := old(FailingSubscribers(snapshot[..i], topic));
        assert old(snapshot[i].subscriptions) == snapshot[i].subscriptions;
        Visit(snapshot, i, gone, topic, text);
        i := i + 1;
      }
      assert snapshot[..i] == snapshot;
    }
  }
}
