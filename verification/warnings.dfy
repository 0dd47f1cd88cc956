/** `warnOnce`: a process-wide set of messages already shown, and the
    console on which each message appears the first time it is raised. */
module Warnings {

  /** The set of messages seen so far and the console output so far. */
  datatype Log = Log(seen: set<string>, console: seq<string>)

  /** No message is on the console twice, and exactly the seen messages are. */
  ghost predicate Consistent(w: Log) {
    (forall i, j :: 0 <= i < j < |w.console| ==> w.console[i] != w.console[j])
    && (forall m :: m in w.seen <==> m in w.console)
  }

  /** `warnOnce(message)` */
  function WarnOnce(w: Log, message: string): (r: Log)
    ensures message in r.seen
    ensures r.seen == w.seen + {message}
    ensures message in w.seen ==> r == w
    ensures |w.console| <= |r.console| <= |w.console| + 1
    ensures r.console[..|w.console|] == w.console
    ensures |r.console| == |w.console| + 1 <==> message !in w.seen
    ensures |r.console| == |w.console| + 1 ==> r.console[|w.console|] == message
  {
    if message in w.seen then w
    else Log(w.seen + {message}, w.console + [message])
  }

  lemma WarnOncePreservesConsistent(w: Log, message: string)
    requires Consistent(w)
    ensures Consistent(WarnOnce(w, message))
  {
    var r := WarnOnce(w, message);
    if message !in w.seen {
      assert message !in w.console;
      forall i, j | 0 <= i < j < |r.console| ensures r.console[i] != r.console[j] {
        if j == |w.console| {
          assert r.console[i] == w.console[i];
        }
      }
    }
  }

  /** Raising a sequence of messages in order. */
  function WarnAll(w: Log, messages: seq<string>): Log
    decreases |messages|
  {
    if |messages| == 0 then w else WarnAll(WarnOnce(w, messages[0]), messages[1..])
  }

  /** From a consistent log, raising any messages keeps it consistent, and
      the console ends up holding each message that was seen before or
      raised now, once. */
  lemma {:induction false} WarnAllConsistent(w: Log, messages: seq<string>)
    requires Consistent(w)
    ensures Consistent(WarnAll(w, messages))
    ensures forall m :: m in WarnAll(w, messages).console <==> m in w.seen || m in messages
    decreases |messages|
  {
    if |messages| > 0 {
      WarnOncePreservesConsistent(w, messages[0]);
      WarnAllConsistent(WarnOnce(w, messages[0]), messages[1..]);
      assert messages == [messages[0]] + messages[1..];
    }
  }
}
