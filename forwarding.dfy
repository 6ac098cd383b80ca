/**
 * `processGmailEmails` of the mail-scanning script (google-apps-script.js):
 * for every thread the booking search returned and every message in it, an
 * unread message whose body yields both a country code and a phone number is
 * forwarded to the relay's `/send-whatsapp` endpoint, marked read, and its
 * thread gets the `WhatsApp-Processed` label. Every other message is left as
 * it was.
 *
 * The mailbox is a class whose field holds the threads the search matched,
 * in the order the search returns them; `MarkRead` and `AddLabel` are the
 * two mailbox updates the script makes.
 */
module Forwarding {
  import opened Wrappers
  import Extraction
  import Webhook
  import JsText

  /** The label given to a thread once one of its messages was forwarded. */
  const ProcessedLabel: string := "WhatsApp-Processed"
  /** The search returns at most this many threads: `GmailApp.search(query, 0, 10)`. */
  const SearchLimit: nat := 10

  datatype Message = Message(body: string, unread: bool)
  datatype Thread = Thread(messages: seq<Message>, labels: set<string>)

  /**
   * How a message body is read. The script uses `extractPhoneData`,
   * `Extraction.ExtractPhoneData`; the properties of the loop below hold
   * whatever the extraction.
   */
  type Extractor = string -> Extraction.PhoneData

  /** `extractedData.countryCode && extractedData.phoneNumber`: both fields are truthy. */
  predicate Complete(d: Extraction.PhoneData) {
    Webhook.Truthy(d.countryCode) && Webhook.Truthy(d.phoneNumber)
  }

  /** The message is unread and both fields can be extracted from its body. */
  predicate ShouldForward(extract: Extractor, m: Message) {
    m.unread && Complete(extract(m.body))
  }

  /** The message after its turn in the loop: read if it was forwarded, otherwise unchanged. */
  function AfterMessage(extract: Extractor, m: Message): (r: Message)
    ensures r.body == m.body
    ensures r.unread <==> m.unread && !Complete(extract(m.body))
  {
    if ShouldForward(extract, m) then m.(unread := false) else m
  }

  /** Some message of the sequence is forwarded. */
  predicate AnyForwarded(extract: Extractor, ms: seq<Message>) {
    ms != [] && (AnyForwarded(extract, ms[..|ms| - 1]) || ShouldForward(extract, ms[|ms| - 1]))
  }

  /** The labels of a thread after its messages `ms` had their turn. */
  function AfterLabels(extract: Extractor, ms: seq<Message>, labels: set<string>): set<string> {
    if AnyForwarded(extract, ms) then labels + {ProcessedLabel} else labels
  }

  /** The messages after the inner loop. */
  function AfterMessages(extract: Extractor, ms: seq<Message>): (r: seq<Message>)
    ensures |r| == |ms|
  {
    seq(|ms|, k requires 0 <= k < |ms| => AfterMessage(extract, ms[k]))
  }

  /** A thread after the inner loop over its messages. */
  function AfterThread(extract: Extractor, t: Thread): Thread {
    Thread(AfterMessages(extract, t.messages), AfterLabels(extract, t.messages, t.labels))
  }

  /** The extracted data sent for the messages `ms`, in order. */
  function ForwardedFrom(extract: Extractor, ms: seq<Message>): seq<Extraction.PhoneData>
  {
    if ms == [] then []
    else
      var m := ms[|ms| - 1];
      ForwardedFrom(extract, ms[..|ms| - 1]) + (if ShouldForward(extract, m) then [extract(m.body)] else [])
  }

  /** The number of threads the search takes. */
  function Searched(ts: seq<Thread>): (n: nat)
    ensures n <= |ts| && n <= SearchLimit
    ensures n == |ts| || n == SearchLimit
  {
    if |ts| < SearchLimit then |ts| else SearchLimit
  }

  /** Every thread of `ts` after the inner loop. */
  function AfterAll(extract: Extractor, ts: seq<Thread>): (r: seq<Thread>)
    ensures |r| == |ts|
  {
    seq(|ts|, i requires 0 <= i < |ts| => AfterThread(extract, ts[i]))
  }

  /** The mailbox after `processGmailEmails`: the searched threads processed, the others as they were. */
  function AfterThreads(extract: Extractor, ts: seq<Thread>): seq<Thread> {
    AfterAll(extract, ts[..Searched(ts)]) + ts[Searched(ts)..]
  }

  /** The data sent for the threads `ts`, thread by thread and message by message. */
  function ForwardedFromAll(extract: Extractor, ts: seq<Thread>): seq<Extraction.PhoneData>
  {
    if ts == [] then [] else ForwardedFromAll(extract, ts[..|ts| - 1]) + ForwardedFrom(extract, ts[|ts| - 1].messages)
  }

  /** The data `processGmailEmails` sends, in order. */
  function Forwarded(extract: Extractor, ts: seq<Thread>): seq<Extraction.PhoneData> {
    ForwardedFromAll(extract, ts[..Searched(ts)])
  }

  /** The number of unread messages in `ms`. */
  function UnreadIn(ms: seq<Message>): nat {
    if ms == [] then 0 else UnreadIn(ms[..|ms| - 1]) + (if ms[|ms| - 1].unread then 1 else 0)
  }

  /** The number of unread messages in all the threads `ts`. */
  function UnreadCount(ts: seq<Thread>): nat {
    if ts == [] then 0 else UnreadCount(ts[..|ts| - 1]) + UnreadIn(ts[|ts| - 1].messages)
  }

  /** The search results, whose messages the script marks read and whose threads it labels. */
  class Mailbox {
    /** The extraction the script applies to every message body. */
    const extract: Extractor
    var threads: seq<Thread>

    /** A mailbox read with `extractPhoneData`. */
    constructor(threads0: seq<Thread>)
      ensures threads == threads0 && extract == Extraction.ExtractPhoneData
    {
      extract := Extraction.ExtractPhoneData;
      threads := threads0;
    }

    /** `message.markRead()` on message `j` of thread `i`. */
    method MarkRead(i: nat, j: nat)
      requires i < |threads| && j < |threads[i].messages|
      modifies this
      ensures threads == old(threads)[i := old(threads)[i].(messages := old(threads)[i].messages[j := old(threads)[i].messages[j].(unread := false)])]
    {
      var t := threads[i];
      threads := threads[i := t.(messages := t.messages[j := t.messages[j].(unread := false)])];
    }

    /** `thread.addLabel(label)` on thread `i`. */
    method AddLabel(i: nat, name: string)
      requires i < |threads|
      modifies this
      ensures threads == old(threads)[i := old(threads)[i].(labels := old(threads)[i].labels + {name})]
    {
      var t := threads[i];
      threads := threads[i := t.(labels := t.labels + {name})];
    }

    /**
     * The callback of the inner `messages.forEach` for message `j` of thread
     * `i`; returns what it sent: nothing, or the extracted data.
     */
    method ProcessMessage(i: nat, j: nat) returns (sent: seq<Extraction.PhoneData>)
      requires i < |threads| && j < |threads[i].messages|
      modifies this
      ensures threads == old(threads)[i := MessageStep(extract, old(threads)[i], j)]
      ensures sent == SentFor(extract, old(threads)[i].messages[j])
    {
      var message := threads[i].messages[j];
      sent := [];
      if message.unread {
        var data := extract(message.body);
        if Webhook.Truthy(data.countryCode) && Webhook.Truthy(data.phoneNumber) {
          sent := [data];
          MarkRead(i, j);
          AddLabel(i, ProcessedLabel);
        }
      }
    }

    /** The inner `messages.forEach` over thread `i`; returns the data sent, in order. */
    method ProcessThread(i: nat) returns (sent: seq<Extraction.PhoneData>)
      requires i < |threads|
      modifies this
      ensures threads == old(threads)[i := AfterThread(extract, old(threads)[i])]
      ensures sent == ForwardedFrom(extract, old(threads)[i].messages)
    {
      ghost var ts0 := threads;
      ghost var t0 := threads[i];
      var n := |threads[i].messages|;
      sent := [];
      var j := 0;
      PartlyProcessedStart(extract, t0);
      assert ts0[i := t0] == ts0;
      while j < n
        invariant 0 <= j <= n == |t0.messages|
        invariant threads == ts0[i := PartlyProcessed(extract, t0, j)]
        invariant sent == ForwardedFrom(extract, t0.messages[..j])
      {
        PartlyProcessedStep(extract, t0, j);
        ForwardedFromStep(extract, t0.messages, j);
        var more := ProcessMessage(i, j);
        UpdateTwice(ts0, i, PartlyProcessed(extract, t0, j), PartlyProcessed(extract, t0, j + 1));
        sent := sent + more;
        j := j + 1;
      }
      PartlyProcessedEnd(extract, t0);
      assert t0.messages[..n] == t0.messages;
    }

    /** `processGmailEmails`: the outer `threads.forEach` over the search results; returns the data sent, in order. */
    method ProcessGmailEmails() returns (sent: seq<Extraction.PhoneData>)
      modifies this
      ensures threads == AfterThreads(extract, old(threads))
      ensures sent == Forwarded(extract, old(threads))
    {
      ghost var ts0 := threads;
      var n := if |threads| < SearchLimit then |threads| else SearchLimit;
      sent := [];
      var i := 0;
      PartlyProcessedAllStart(extract, ts0);
      while i < n
        invariant 0 <= i <= n == Searched(ts0)
        invariant threads == PartlyProcessedAll(extract, ts0, i)
        invariant sent == ForwardedFromAll(extract, ts0[..i])
      {
        PartlyProcessedAllStep(extract, ts0, i);
        var more := ProcessThread(i);
        sent := sent + more;
        i := i + 1;
      }
      assert i == Searched(ts0);
      assert threads == AfterAll(extract, ts0[..Searched(ts0)]) + ts0[Searched(ts0)..];
    }
  }

  /** A second update at the same index overrides the first. */
  lemma UpdateTwice<T>(s: seq<T>, i: nat, a: T, b: T)
    requires i < |s|
    ensures s[i := a][i := b] == s[i := b]
  {
  }

  /** The effect of the inner callback on message `j` of thread `t`. */
  function MessageStep(extract: Extractor, t: Thread, j: nat): (r: Thread)
    requires j < |t.messages|
    ensures |r.messages| == |t.messages|
  {
    if ShouldForward(extract, t.messages[j])
    then Thread(t.messages[j := t.messages[j].(unread := false)], t.labels + {ProcessedLabel})
    else t
  }

  /** What the inner callback sends for one message. */
  function SentFor(extract: Extractor, m: Message): seq<Extraction.PhoneData> {
    if ShouldForward(extract, m) then [extract(m.body)] else []
  }

  /** Thread `t` once its first `j` messages had their turn. */
  function PartlyProcessed(extract: Extractor, t: Thread, j: nat): (r: Thread)
    requires j <= |t.messages|
    ensures |r.messages| == |t.messages|
  {
    Thread(AfterMessages(extract, t.messages[..j]) + t.messages[j..], AfterLabels(extract, t.messages[..j], t.labels))
  }

  /** The threads `ts` once the first `i` had their turn. */
  function PartlyProcessedAll(extract: Extractor, ts: seq<Thread>, i: nat): (r: seq<Thread>)
    requires i <= |ts|
    ensures |r| == |ts|
  {
    AfterAll(extract, ts[..i]) + ts[i..]
  }

  lemma PartlyProcessedStart(extract: Extractor, t: Thread)
    ensures PartlyProcessed(extract, t, 0) == t
  {
    assert AfterMessages(extract, t.messages[..0]) + t.messages[0..] == t.messages;
  }

  lemma PartlyProcessedEnd(extract: Extractor, t: Thread)
    ensures PartlyProcessed(extract, t, |t.messages|) == AfterThread(extract, t)
  {
    assert t.messages[..|t.messages|] == t.messages;
    assert AfterMessages(extract, t.messages) + t.messages[|t.messages|..] == AfterMessages(extract, t.messages);
  }

  /** One turn of the inner loop is one callback. */
  lemma PartlyProcessedStep(extract: Extractor, t: Thread, j: nat)
    requires j < |t.messages|
    ensures PartlyProcessed(extract, t, j).messages[j] == t.messages[j]
    ensures PartlyProcessed(extract, t, j + 1) == MessageStep(extract, PartlyProcessed(extract, t, j), j)
  {
    var ms := t.messages;
    var p := PartlyProcessed(extract, t, j);
    assert p.messages[j] == ms[j];
    StepMessages(extract, ms, j);
    StepLabels(extract, ms, j);
    assert ms[..j + 1][..j] == ms[..j];
    if ShouldForward(extract, ms[j]) {
      assert AfterLabels(extract, ms[..j + 1], t.labels) == p.labels + {ProcessedLabel};
    } else {
      assert p.messages[j := ms[j]] == p.messages;
    }
  }

  /** One turn of the inner loop sends what its callback sends. */
  lemma ForwardedFromStep(extract: Extractor, ms: seq<Message>, j: nat)
    requires j < |ms|
    ensures ForwardedFrom(extract, ms[..j + 1]) == ForwardedFrom(extract, ms[..j]) + SentFor(extract, ms[j])
  {
    assert ms[..j + 1][..j] == ms[..j];
  }

  lemma PartlyProcessedAllStart(extract: Extractor, ts: seq<Thread>)
    ensures PartlyProcessedAll(extract, ts, 0) == ts
    ensures ts[..0] == []
  {
    assert AfterAll(extract, ts[..0]) + ts[0..] == ts;
  }

  /** One turn of the outer loop processes one more thread. */
  lemma PartlyProcessedAllStep(extract: Extractor, ts: seq<Thread>, i: nat)
    requires i < |ts|
    ensures PartlyProcessedAll(extract, ts, i)[i] == ts[i]
    ensures PartlyProcessedAll(extract, ts, i + 1) == PartlyProcessedAll(extract, ts, i)[i := AfterThread(extract, ts[i])]
    ensures ForwardedFromAll(extract, ts[..i + 1]) == ForwardedFromAll(extract, ts[..i]) + ForwardedFrom(extract, ts[i].messages)
  {
    assert ts[..i + 1][..i] == ts[..i];
    var u := PartlyProcessedAll(extract, ts, i + 1);
    var v := PartlyProcessedAll(extract, ts, i)[i := AfterThread(extract, ts[i])];
    forall k | 0 <= k < |ts|
      ensures u[k] == v[k]
    {
      if k < i {
        assert AfterAll(extract, ts[..i + 1])[k] == AfterAll(extract, ts[..i])[k];
      }
    }
  }

  /** One more message taken by the inner loop: its update lands at index `j`. */
  lemma StepMessages(extract: Extractor, ms: seq<Message>, j: nat)
    requires j < |ms|
    ensures AfterMessages(extract, ms[..j + 1]) + ms[j + 1..] == (AfterMessages(extract, ms[..j]) + ms[j..])[j := AfterMessage(extract, ms[j])]
  {
    var u := AfterMessages(extract, ms[..j + 1]) + ms[j + 1..];
    var v := (AfterMessages(extract, ms[..j]) + ms[j..])[j := AfterMessage(extract, ms[j])];
    assert |u| == |v|;
    forall k | 0 <= k < |u|
      ensures u[k] == v[k]
    {
      if k < j {
        assert u[k] == AfterMessage(extract, ms[k]);
      } else if k > j {
        assert u[k] == ms[k];
      }
    }
  }

  /** One more message taken by the inner loop: the thread is labelled once it, or an earlier one, was forwarded. */
  lemma StepLabels(extract: Extractor, ms: seq<Message>, j: nat)
    requires j < |ms|
    ensures AnyForwarded(extract, ms[..j + 1]) <==> AnyForwarded(extract, ms[..j]) || ShouldForward(extract, ms[j])
  {
    assert ms[..j + 1][..j] == ms[..j];
  }

  /** How the mailbox looks at thread `i` after `processGmailEmails`. */
  lemma AfterThreadsAt(extract: Extractor, ts: seq<Thread>, i: nat)
    requires i < |ts|
    ensures |AfterThreads(extract, ts)| == |ts|
    ensures AfterThreads(extract, ts)[i] == if i < SearchLimit then AfterThread(extract, ts[i]) else ts[i]
  {
    var n := Searched(ts);
    if i >= n {
      assert AfterThreads(extract, ts)[i] == ts[n..][i - n];
    }
  }

  /** The thread is labelled exactly when one of its messages is forwarded. */
  lemma {:induction false} AnyForwardedIff(extract: Extractor, ms: seq<Message>)
    ensures AnyForwarded(extract, ms) <==> exists k :: 0 <= k < |ms| && ShouldForward(extract, ms[k])
    decreases |ms|
  {
    if ms != [] {
      var init := ms[..|ms| - 1];
      AnyForwardedIff(extract, init);
      if AnyForwarded(extract, init) {
        var k :| 0 <= k < |init| && ShouldForward(extract, init[k]);
        assert ms[k] == init[k];
      }
      if exists k :: 0 <= k < |ms| && ShouldForward(extract, ms[k]) {
        var k :| 0 <= k < |ms| && ShouldForward(extract, ms[k]);
        if k < |init| {
          assert init[k] == ms[k];
        }
      }
    }
  }

  /** Everything sent for `ms` is the data of one of its forwarded messages. */
  lemma {:induction false} ForwardedFromSound(extract: Extractor, ms: seq<Message>, d: Extraction.PhoneData)
    requires d in ForwardedFrom(extract, ms)
    ensures exists k :: 0 <= k < |ms| && ShouldForward(extract, ms[k]) && d == extract(ms[k].body)
    decreases |ms|
  {
    var init := ms[..|ms| - 1];
    if d in ForwardedFrom(extract, init) {
      ForwardedFromSound(extract, init, d);
      var k :| 0 <= k < |init| && ShouldForward(extract, init[k]) && d == extract(init[k].body);
      assert ms[k] == init[k];
    }
  }

  /** The data of every forwarded message of `ms` is sent. */
  lemma {:induction false} ForwardedFromComplete(extract: Extractor, ms: seq<Message>, k: nat)
    requires k < |ms| && ShouldForward(extract, ms[k])
    ensures extract(ms[k].body) in ForwardedFrom(extract, ms)
    decreases |ms|
  {
    var init := ms[..|ms| - 1];
    if k < |init| {
      assert init[k] == ms[k];
      ForwardedFromComplete(extract, init, k);
    }
  }

  /** Everything `processGmailEmails` sends comes from a forwarded message of a searched thread. */
  lemma {:induction false} ForwardedFromAllSound(extract: Extractor, ts: seq<Thread>, d: Extraction.PhoneData)
    requires d in ForwardedFromAll(extract, ts)
    ensures exists i, k :: 0 <= i < |ts| && 0 <= k < |ts[i].messages| && ShouldForward(extract, ts[i].messages[k])
                           && d == extract(ts[i].messages[k].body)
    decreases |ts|
  {
    var init := ts[..|ts| - 1];
    if d in ForwardedFromAll(extract, init) {
      ForwardedFromAllSound(extract, init, d);
      var i, k :| 0 <= i < |init| && 0 <= k < |init[i].messages| && ShouldForward(extract, init[i].messages[k])
                  && d == extract(init[i].messages[k].body);
      assert ts[i] == init[i];
    } else {
      ForwardedFromSound(extract, ts[|ts| - 1].messages, d);
    }
  }

  /** The data of every forwarded message of a searched thread is sent. */
  lemma {:induction false} ForwardedFromAllComplete(extract: Extractor, ts: seq<Thread>, i: nat, k: nat)
    requires i < |ts| && k < |ts[i].messages| && ShouldForward(extract, ts[i].messages[k])
    ensures extract(ts[i].messages[k].body) in ForwardedFromAll(extract, ts)
    decreases |ts|
  {
    var init := ts[..|ts| - 1];
    if i < |init| {
      assert init[i] == ts[i];
      ForwardedFromAllComplete(extract, init, i, k);
    } else {
      ForwardedFromComplete(extract, ts[i].messages, k);
    }
  }

  /**
   * `processGmailEmails` sends the data of exactly the unread messages, among
   * the first `SearchLimit` threads, whose bodies yield both fields.
   */
  lemma ForwardedIff(extract: Extractor, ts: seq<Thread>, d: Extraction.PhoneData)
    ensures d in Forwarded(extract, ts) <==>
      exists i, k :: 0 <= i < |ts| && i < SearchLimit && 0 <= k < |ts[i].messages| && ShouldForward(extract, ts[i].messages[k])
                     && d == extract(ts[i].messages[k].body)
  {
    var s := ts[..Searched(ts)];
    if d in Forwarded(extract, ts) {
      ForwardedFromAllSound(extract, s, d);
      var i, k :| 0 <= i < |s| && 0 <= k < |s[i].messages| && ShouldForward(extract, s[i].messages[k])
                  && d == extract(s[i].messages[k].body);
      assert s[i] == ts[i];
    }
    if exists i, k :: 0 <= i < |ts| && i < SearchLimit && 0 <= k < |ts[i].messages| && ShouldForward(extract, ts[i].messages[k])
                      && d == extract(ts[i].messages[k].body) {
      var i, k :| 0 <= i < |ts| && i < SearchLimit && 0 <= k < |ts[i].messages| && ShouldForward(extract, ts[i].messages[k])
                  && d == extract(ts[i].messages[k].body);
      assert s[i] == ts[i];
      ForwardedFromAllComplete(extract, s, i, k);
    }
  }

  /**
   * What becomes of message `k` of thread `i`: its body is kept, and it ends
   * unread exactly when it was unread and was not forwarded, because its
   * thread was past the search limit or its body lacked a field.
   */
  lemma MessageFate(extract: Extractor, ts: seq<Thread>, i: nat, k: nat)
    requires i < |ts| && k < |ts[i].messages|
    ensures |AfterThreads(extract, ts)| == |ts| && |AfterThreads(extract, ts)[i].messages| == |ts[i].messages|
    ensures var m, m' := ts[i].messages[k], AfterThreads(extract, ts)[i].messages[k];
      && m'.body == m.body
      && (m'.unread <==> m.unread && (i >= SearchLimit || !Complete(extract(m.body))))
  {
    AfterThreadsAt(extract, ts, i);
  }

  /**
   * The thread's labels gain `WhatsApp-Processed` exactly when one of its
   * messages is forwarded, and nothing else about them changes.
   */
  lemma LabelFate(extract: Extractor, ts: seq<Thread>, i: nat)
    requires i < |ts|
    ensures |AfterThreads(extract, ts)| == |ts|
    ensures AfterThreads(extract, ts)[i].labels ==
      ts[i].labels + (if i < SearchLimit && exists k :: 0 <= k < |ts[i].messages| && ShouldForward(extract, ts[i].messages[k])
                      then {ProcessedLabel} else {})
  {
    AfterThreadsAt(extract, ts, i);
    AnyForwardedIff(extract, ts[i].messages);
  }

  /** Everything sent carries two truthy fields, so the relay accepts it: never a 400. */
  lemma ForwardedPassesValidation(extract: Extractor, ts: seq<Thread>, d: Extraction.PhoneData, sendOk: bool, logOk: bool)
    requires d in Forwarded(extract, ts)
    ensures Complete(d)
    ensures Webhook.HandleSendWhatsapp(d.countryCode, d.phoneNumber, sendOk, logOk).status != 400
  {
    ForwardedIff(extract, ts, d);
  }

  /** With the script's own extractor, every forwarded country code is `+` and digits and every number is digits. */
  lemma ForwardedIsWellFormed(ts: seq<Thread>, d: Extraction.PhoneData)
    requires d in Forwarded(Extraction.ExtractPhoneData, ts)
    ensures d.countryCode.Some? && |d.countryCode.value| >= 2 && d.countryCode.value[0] == '+' && JsText.AllDigits(d.countryCode.value[1..])
    ensures d.phoneNumber.Some? && |d.phoneNumber.value| >= 1 && JsText.AllDigits(d.phoneNumber.value)
  {
    ForwardedIff(Extraction.ExtractPhoneData, ts, d);
    var i, k :| 0 <= i < |ts| && i < SearchLimit && 0 <= k < |ts[i].messages|
                && ShouldForward(Extraction.ExtractPhoneData, ts[i].messages[k])
                && d == Extraction.ExtractPhoneData(ts[i].messages[k].body);
  }

  /** Each message of `ms` is either sent and marked read, or keeps its unread flag. */
  lemma {:induction false} UnreadConservedIn(extract: Extractor, ms: seq<Message>)
    ensures UnreadIn(AfterMessages(extract, ms)) + |ForwardedFrom(extract, ms)| == UnreadIn(ms)
    decreases |ms|
  {
    if ms != [] {
      var init := ms[..|ms| - 1];
      assert AfterMessages(extract, ms)[..|ms| - 1] == AfterMessages(extract, init);
      UnreadConservedIn(extract, init);
    }
  }

  /** The unread count of a concatenation of thread lists. */
  lemma {:induction false} UnreadCountConcat(a: seq<Thread>, b: seq<Thread>)
    ensures UnreadCount(a + b) == UnreadCount(a) + UnreadCount(b)
    decreases |b|
  {
    if b != [] {
      assert (a + b)[..|a + b| - 1] == a + b[..|b| - 1];
      UnreadCountConcat(a, b[..|b| - 1]);
    } else {
      assert a + b == a;
    }
  }

  /** The same conservation over every thread of a list. */
  lemma {:induction false} UnreadConservedAll(extract: Extractor, ts: seq<Thread>)
    ensures UnreadCount(AfterAll(extract, ts)) + |ForwardedFromAll(extract, ts)| == UnreadCount(ts)
    decreases |ts|
  {
    if ts != [] {
      var init := ts[..|ts| - 1];
      assert AfterAll(extract, ts)[..|ts| - 1] == AfterAll(extract, init);
      UnreadConservedAll(extract, init);
      UnreadConservedIn(extract, ts[|ts| - 1].messages);
    }
  }

  /**
   * Every message sent is one unread message fewer: after `processGmailEmails`
   * the unread count has dropped by exactly the number of messages sent.
   */
  lemma UnreadConserved(extract: Extractor, ts: seq<Thread>)
    ensures UnreadCount(AfterThreads(extract, ts)) + |Forwarded(extract, ts)| == UnreadCount(ts)
  {
    var n := Searched(ts);
    assert ts == ts[..n] + ts[n..];
    UnreadCountConcat(AfterAll(extract, ts[..n]), ts[n..]);
    UnreadCountConcat(ts[..n], ts[n..]);
    UnreadConservedAll(extract, ts[..n]);
  }

  /** A message that had its turn is not forwarded again, and a second turn leaves it as it is. */
  lemma AfterMessageSettled(extract: Extractor, m: Message)
    ensures !ShouldForward(extract, AfterMessage(extract, m))
    ensures AfterMessage(extract, AfterMessage(extract, m)) == AfterMessage(extract, m)
  {
  }

  /** After the inner loop no message of the thread is forwardable. */
  lemma {:induction false} NothingLeftIn(extract: Extractor, ms: seq<Message>)
    ensures ForwardedFrom(extract, AfterMessages(extract, ms)) == []
    ensures !AnyForwarded(extract, AfterMessages(extract, ms))
    decreases |ms|
  {
    if ms != [] {
      var init := ms[..|ms| - 1];
      assert AfterMessages(extract, ms)[..|ms| - 1] == AfterMessages(extract, init);
      NothingLeftIn(extract, init);
      AfterMessageSettled(extract, ms[|ms| - 1]);
    }
  }

  /** A processed thread is left as it is by another pass. */
  lemma AfterThreadSettled(extract: Extractor, t: Thread)
    ensures AfterThread(extract, AfterThread(extract, t)) == AfterThread(extract, t)
  {
    var ms := AfterMessages(extract, t.messages);
    forall k | 0 <= k < |ms|
      ensures AfterMessages(extract, ms)[k] == ms[k]
    {
      AfterMessageSettled(extract, t.messages[k]);
    }
    NothingLeftIn(extract, t.messages);
  }

  /** After the outer loop no searched message is forwardable. */
  lemma {:induction false} NothingLeftAll(extract: Extractor, ts: seq<Thread>)
    ensures ForwardedFromAll(extract, AfterAll(extract, ts)) == []
    decreases |ts|
  {
    if ts != [] {
      var init := ts[..|ts| - 1];
      assert AfterAll(extract, ts)[..|ts| - 1] == AfterAll(extract, init);
      NothingLeftAll(extract, init);
      NothingLeftIn(extract, ts[|ts| - 1].messages);
    }
  }

  /**
   * Running `processGmailEmails` again on the mailbox it left (with the same
   * search results) sends nothing and changes nothing: each message is
   * forwarded at most once.
   */
  lemma ProcessingIsIdempotent(extract: Extractor, ts: seq<Thread>)
    ensures Forwarded(extract, AfterThreads(extract, ts)) == []
    ensures AfterThreads(extract, AfterThreads(extract, ts)) == AfterThreads(extract, ts)
  {
    var n := Searched(ts);
    var after := AfterThreads(extract, ts);
    assert |after| == |ts|;
    assert after[..n] == AfterAll(extract, ts[..n]);
    assert after[n..] == ts[n..];
    NothingLeftAll(extract, ts[..n]);
    forall i | 0 <= i < n
      ensures AfterAll(extract, after[..n])[i] == after[i]
    {
      AfterThreadSettled(extract, ts[i]);
    }
    assert AfterAll(extract, after[..n]) == after[..n];
  }

  /** A single searched thread of two messages, of which only the first is forwardable. */
  lemma FirstOfTwoForwarded(extract: Extractor, a: Message, b: Message, labels: set<string>)
    requires ShouldForward(extract, a) && !ShouldForward(extract, b)
    ensures var ts := [Thread([a, b], labels)];
      && Forwarded(extract, ts) == [extract(a.body)]
      && AfterThreads(extract, ts) == [Thread([a.(unread := false), b], labels + {ProcessedLabel})]
  {
    var ms := [a, b];
    var d := extract(a.body);
    assert ms[..1] == [a] && [a][..0] == [];
    assert ForwardedFrom(extract, [a]) == [d];
    assert ForwardedFrom(extract, ms) == [d];
    assert AnyForwarded(extract, ms);
    var ts := [Thread(ms, labels)];
    assert Searched(ts) == 1;
    assert ts[..1] == ts && ts[..0] == [] && ts[1..] == [];
    assert ForwardedFromAll(extract, ts) == ForwardedFromAll(extract, []) + ForwardedFrom(extract, ms);
    assert AfterMessages(extract, ms) == [a.(unread := false), b];
    assert AfterAll(extract, ts) == [AfterThread(extract, ts[0])];
  }

  /** The booking e-mail of `testExtraction`, unread. */
  const SampleBooking: Message := Message(Extraction.TestEmail, true)
  /** A one-word reply in the same thread, unread. */
  const SampleReply: Message := Message("Hi", true)

  /** The sample booking e-mail, unread, is forwarded with `+91` and `8475043504`. */
  lemma SampleBookingForwardable()
    ensures ShouldForward(Extraction.ExtractPhoneData, SampleBooking)
    ensures Extraction.ExtractPhoneData(Extraction.TestEmail) == Extraction.PhoneData(Some("+91"), Some("8475043504"))
  {
    Extraction.TestExtraction();
  }

  /** A one-word reply is not forwarded. */
  lemma ShortReplyKept()
    ensures !ShouldForward(Extraction.ExtractPhoneData, SampleReply)
  {
    Extraction.ShortBodyYieldsNothing("Hi");
  }

  /**
   * A thread holding the sample booking e-mail and a one-word reply, both
   * unread: only the booking is sent, only it is marked read, and the thread
   * is labelled.
   */
  lemma SampleMailbox()
    ensures Forwarded(Extraction.ExtractPhoneData, [Thread([SampleBooking, SampleReply], {})])
      == [Extraction.PhoneData(Some("+91"), Some("8475043504"))]
    ensures AfterThreads(Extraction.ExtractPhoneData, [Thread([SampleBooking, SampleReply], {})])
      == [Thread([SampleBooking.(unread := false), SampleReply], {ProcessedLabel})]
  {
    SampleBookingForwardable();
    ShortReplyKept();
    SampleThreadProcessed(Extraction.ExtractPhoneData);
  }

  /** `FirstOfTwoForwarded` for the two sample messages, under any extractor that forwards only the booking. */
  lemma SampleThreadProcessed(extract: Extractor)
    requires ShouldForward(extract, SampleBooking) && !ShouldForward(extract, SampleReply)
    ensures Forwarded(extract, [Thread([SampleBooking, SampleReply], {})]) == [extract(SampleBooking.body)]
    ensures AfterThreads(extract, [Thread([SampleBooking, SampleReply], {})])
      == [Thread([SampleBooking.(unread := false), SampleReply], {ProcessedLabel})]
  {
    FirstOfTwoForwarded(extract, SampleBooking, SampleReply, {});
    assert {} + {ProcessedLabel} == {ProcessedLabel};
  }

}
