/** What one broadcast pass of the relay does to the registry, stated as
    functions on values. The drain loop pops handles off the END of the
    registry, sends each the same text, acknowledges the message once per
    handle and collects the handle in a local list that becomes the new
    registry. A send that raises aborts the pass. */
module Fanout {
  import opened Registry

  /** One completed `send_text`: the handle and the text it received. */
  datatype Delivery<H> = Delivery(to: H, text: string)

  /** The effect of one pass over a registry.
      raised:    the pass ended with a send exception;
      remaining: what is left in the registry when a send raises;
      living:    the handles served, in the order they were served;
      sent:      the deliveries, in the order they were made;
      acks:      the number of acknowledgements issued. */
  datatype Pass<H> = Pass(raised: bool, remaining: seq<H>, living: seq<H>,
                          sent: seq<Delivery<H>>, acks: nat)

  /** The order in which handles come off the end of a list by `pop()`. */
  function Reverse<T>(s: seq<T>): (r: seq<T>)
    ensures |r| == |s|
  {
    if s == [] then [] else [s[|s| - 1]] + Reverse(s[..|s| - 1])
  }

  lemma {:induction false} ReverseAt<T>(s: seq<T>, i: nat)
    requires i < |s|
    ensures Reverse(s)[i] == s[|s| - 1 - i]
  {
    if i > 0 {
      ReverseAt(s[..|s| - 1], i - 1);
    }
  }

  lemma {:induction false} ReverseMultiset<T>(s: seq<T>)
    ensures multiset(Reverse(s)) == multiset(s)
  {
    if s != [] {
      ReverseMultiset(s[..|s| - 1]);
      assert s == s[..|s| - 1] + [s[|s| - 1]];
    }
  }

  /** Two pops-and-appends in a row give back the original order. */
  lemma ReverseReverse<T>(s: seq<T>)
    ensures Reverse(Reverse(s)) == s
  {
    forall i | 0 <= i < |s| ensures Reverse(Reverse(s))[i] == s[i] {
      ReverseAt(Reverse(s), i);
      ReverseAt(s, |s| - 1 - i);
    }
  }

  lemma ReverseDistinct<T>(s: seq<T>)
    requires Distinct(s)
    ensures Distinct(Reverse(s))
  {
    forall i, j | 0 <= i < j < |s| ensures Reverse(s)[i] != Reverse(s)[j] {
      ReverseAt(s, i);
      ReverseAt(s, j);
    }
  }

  /** One broadcast pass as the relay's drain loop runs it: the last handle
      is popped; if its send raises the pass stops there, the popped handle
      and the local list are lost and the rest stays registered; otherwise
      the handle is served, acknowledged and kept, and the pass goes on. */
  function Drain<H(==)>(s: seq<H>, failing: set<H>, text: string): (p: Pass<H>)
    ensures p.acks == |p.living| == |p.sent| <= |s|
    ensures !p.raised ==> p.remaining == [] && p.acks == |s|
    ensures p.raised ==> |p.remaining| + p.acks + 1 == |s|
  {
    if s == [] then Pass(false, [], [], [], 0)
    else
      var h := s[|s| - 1];
      if h in failing then Pass(true, s[..|s| - 1], [], [], 0)
      else
        var rest := Drain(s[..|s| - 1], failing, text);
        rest.(living := [h] + rest.living,
              sent := [Delivery(h, text)] + rest.sent,
              acks := rest.acks + 1)
  }

  /** The handles served by a pass are the last `acks` ones, none of them
      failing; the pass raised exactly when it stopped short, at a failing
      handle, and then the registry is cut back to the handles before it. */
  lemma {:induction false} DrainStopsAtFailure<H>(s: seq<H>, failing: set<H>, text: string)
    ensures var p := Drain(s, failing, text); var n, k := |s|, p.acks;
      (forall j :: n - k <= j < n ==> s[j] !in failing) &&
      (p.raised <==> k < n) &&
      (p.raised ==> s[n - k - 1] in failing && p.remaining == s[..n - k - 1])
  {
    if s != [] && s[|s| - 1] !in failing {
      var init := s[..|s| - 1];
      DrainStopsAtFailure(init, failing, text);
      var k := Drain(init, failing, text).acks;
      assert Drain(init, failing, text).raised ==> init[..|init| - k - 1] == s[..|s| - k - 2];
    }
  }

  /** The handles served by a pass, in serving order, are the last `acks`
      handles of the registry, newest first. */
  lemma {:induction false} DrainLiving<H>(s: seq<H>, failing: set<H>, text: string)
    ensures var p := Drain(s, failing, text);
      p.living == Reverse(s[|s| - p.acks..])
  {
    if s != [] && s[|s| - 1] !in failing {
      var n := |s|;
      var init := s[..n - 1];
      DrainLiving(init, failing, text);
      var k := Drain(init, failing, text).acks;
      assert s[n - 1 - k..][..k] == init[n - 1 - k..];
    }
  }

  /** The i-th delivery of a pass went to the i-th handle from the end,
      and every delivery carried the same text. */
  lemma {:induction false} DrainSent<H>(s: seq<H>, failing: set<H>, text: string, i: nat)
    requires i < Drain(s, failing, text).acks
    ensures Drain(s, failing, text).sent[i] == Delivery(s[|s| - 1 - i], text)
  {
    if i > 0 {
      DrainSent(s[..|s| - 1], failing, text, i - 1);
    }
  }

  /** The pass in closed form, with k the number of acknowledgements. */
  lemma DrainServes<H>(s: seq<H>, failing: set<H>, text: string)
    ensures var p := Drain(s, failing, text); var n, k := |s|, p.acks;
      k <= n &&
      (forall j :: n - k <= j < n ==> s[j] !in failing) &&
      p.living == Reverse(s[n - k..]) &&
      (forall i :: 0 <= i < k ==> p.sent[i] == Delivery(s[n - 1 - i], text)) &&
      (p.raised <==> k < n) &&
      (p.raised ==> s[n - k - 1] in failing && p.remaining == s[..n - k - 1])
  {
    DrainStopsAtFailure(s, failing, text);
    DrainLiving(s, failing, text);
    forall i | 0 <= i < Drain(s, failing, text).acks {
      DrainSent(s, failing, text, i);
    }
  }

  /** A pass raises exactly when some registered handle's send fails. */
  lemma DrainRaisesIff<H>(s: seq<H>, failing: set<H>, text: string)
    ensures Drain(s, failing, text).raised <==> exists j :: 0 <= j < |s| && s[j] in failing
  {
    DrainServes(s, failing, text);
  }

  /** A pass in which no send fails: it ends normally, the new registry is
      the old one reversed (the same handles, each as often), every handle
      got the same text once in last-connected-first order, and there is
      one acknowledgement per handle. */
  lemma CleanPass<H>(s: seq<H>, failing: set<H>, text: string)
    requires forall j :: 0 <= j < |s| ==> s[j] !in failing
    ensures var p := Drain(s, failing, text);
      !p.raised && p.remaining == [] &&
      p.living == Reverse(s) && multiset(p.living) == multiset(s) &&
      p.acks == |s| && |p.sent| == |s| &&
      (forall i :: 0 <= i < |s| ==> p.sent[i] == Delivery(s[|s| - 1 - i], text))
  {
    DrainServes(s, failing, text);
    ReverseMultiset(s);
    assert s[0..] == s;
  }

  /** An empty registry: nothing is sent, nothing is acknowledged and the
      registry stays empty. */
  lemma EmptyPass<H>(failing: set<H>, text: string)
    ensures Drain([], failing, text) == Pass(false, [], [], [], 0)
  {
  }

  /** A pass whose k-th popped handle is the first to fail: the pass
      raises after k - 1 acknowledgements, the registry is the untouched
      prefix of length |s| - k, and with distinct handles neither the k - 1
      served handles nor the failing one remain registered. */
  lemma AbortedPass<H>(s: seq<H>, failing: set<H>, text: string, k: nat)
    requires 1 <= k <= |s| && s[|s| - k] in failing
    requires forall j :: |s| - k < j < |s| ==> s[j] !in failing
    ensures var p := Drain(s, failing, text);
      p.raised && p.acks == k - 1 && p.remaining == s[..|s| - k] &&
      (Distinct(s) ==> forall j :: |s| - k <= j < |s| ==> s[j] !in p.remaining)
  {
    DrainStopsAtFailure(s, failing, text);
  }

  /** The texts a log of deliveries handed to one client, in order. */
  function TextsTo<H(==)>(log: seq<Delivery<H>>, h: H): (texts: seq<string>)
    ensures |texts| <= |log|
  {
    if log == [] then []
    else (if log[0].to == h then [log[0].text] else []) + TextsTo(log[1..], h)
  }

  lemma {:induction false} TextsToConcat<H>(a: seq<Delivery<H>>, b: seq<Delivery<H>>, h: H)
    ensures TextsTo(a + b, h) == TextsTo(a, h) + TextsTo(b, h)
  {
    if a == [] {
      assert a + b == b;
    } else {
      assert (a + b)[1..] == a[1..] + b;
      TextsToConcat(a[1..], b, h);
    }
  }

  /** With distinct handles and no failing send, every registered client
      receives the pass's text exactly once and nobody else receives it. */
  lemma {:induction false} CleanPassDeliversOnce<H>(s: seq<H>, failing: set<H>, text: string, h: H)
    requires Distinct(s)
    requires forall j :: 0 <= j < |s| ==> s[j] !in failing
    ensures TextsTo(Drain(s, failing, text).sent, h) == if h in s then [text] else []
  {
    if s != [] {
      var init := s[..|s| - 1];
      assert Distinct(init);
      CleanPassDeliversOnce(init, failing, text, h);
      assert s == init + [s[|s| - 1]];
      assert s[|s| - 1] !in init;
    }
  }

  /** Two messages broadcast one after the other to a stable set of
      distinct clients: the registry is back in its original order and
      each client received the first text and then the second. */
  lemma TwoCleanPasses<H>(s: seq<H>, failing: set<H>, t1: string, t2: string, h: H)
    requires Distinct(s)
    requires forall j :: 0 <= j < |s| ==> s[j] !in failing
    requires h in s
    ensures var p1 := Drain(s, failing, t1);
      var p2 := Drain(p1.living, failing, t2);
      !p1.raised && !p2.raised && p2.living == s &&
      TextsTo(p1.sent + p2.sent, h) == [t1, t2]
  {
    CleanPass(s, failing, t1);
    var r := Reverse(s);
    ReverseDistinct(s);
    ReverseMultiset(s);
    forall j | 0 <= j < |r| ensures r[j] !in failing {
      assert r[j] in multiset(s);
    }
    CleanPass(r, failing, t2);
    ReverseReverse(s);
    CleanPassDeliversOnce(s, failing, t1, h);
    assert h in multiset(r);
    CleanPassDeliversOnce(r, failing, t2, h);
    TextsToConcat(Drain(s, failing, t1).sent, Drain(r, failing, t2).sent, h);
  }

  /** The pass the relay evidently intends: a handle whose send raises is
      dropped, every other handle is served, acknowledged and kept, and the
      pass always runs to the end. */
  function DrainPruning<H(==)>(s: seq<H>, failing: set<H>, text: string): (p: Pass<H>)
    ensures !p.raised && p.remaining == []
    ensures p.acks == |p.living| == |p.sent| <= |s|
  {
    if s == [] then Pass(false, [], [], [], 0)
    else
      var h := s[|s| - 1];
      var rest := DrainPruning(s[..|s| - 1], failing, text);
      if h in failing then rest
      else
        rest.(living := [h] + rest.living,
              sent := [Delivery(h, text)] + rest.sent,
              acks := rest.acks + 1)
  }

  /** One step of the pruning pass, written against accumulators: the
      last handle is served and kept unless its send fails. */
  lemma PruningStep<H>(s: seq<H>, failing: set<H>, text: string,
                       living: seq<H>, sent: seq<Delivery<H>>)
    requires s != []
    ensures var h := s[|s| - 1];
      var p, rest := DrainPruning(s, failing, text), DrainPruning(s[..|s| - 1], failing, text);
      if h in failing then p == rest
      else
        living + p.living == (living + [h]) + rest.living &&
        sent + p.sent == (sent + [Delivery(h, text)]) + rest.sent &&
        p.acks == rest.acks + 1
  {
    var h := s[|s| - 1];
    var rest := DrainPruning(s[..|s| - 1], failing, text);
    if h !in failing {
      assert living + ([h] + rest.living) == (living + [h]) + rest.living;
      assert sent + ([Delivery(h, text)] + rest.sent) == (sent + [Delivery(h, text)]) + rest.sent;
    }
  }

  /** The pruning pass keeps exactly the handles whose send succeeds, and
      with distinct handles every such client gets the text once while a
      failing one gets nothing. */
  lemma {:induction false} PruningKeepsLiving<H>(s: seq<H>, failing: set<H>, text: string, h: H)
    requires Distinct(s)
    ensures var p := DrainPruning(s, failing, text);
      (h in p.living <==> h in s && h !in failing) &&
      TextsTo(p.sent, h) == if h in s && h !in failing then [text] else []
  {
    if s != [] {
      var init := s[..|s| - 1];
      assert Distinct(init);
      PruningKeepsLiving(init, failing, text, h);
      assert s == init + [s[|s| - 1]];
      assert s[|s| - 1] !in init;
    }
  }

  /** When no send fails, the pruning pass does exactly what the relay's
      pass does. */
  lemma {:induction false} PruningAgreesOnCleanPass<H>(s: seq<H>, failing: set<H>, text: string)
    requires forall j :: 0 <= j < |s| ==> s[j] !in failing
    ensures DrainPruning(s, failing, text) == Drain(s, failing, text)
  {
    if s != [] {
      PruningAgreesOnCleanPass(s[..|s| - 1], failing, text);
    }
  }

  /** The relay as written: with clients a and b connected in that order and
      a's socket closed, b is served first, then the send to a raises and
      the pass ends with an empty registry, so b, which is alive and did
      receive the text, is never broadcast to again. The pruning pass keeps b. */
  lemma AbortDropsServedHandle<H>(a: H, b: H, text: string)
    requires a != b
    ensures var p := Drain([a, b], {a}, text);
      p.raised && p.remaining == [] && TextsTo(p.sent, b) == [text]
    ensures DrainPruning([a, b], {a}, text).living == [b]
  {
    assert [a, b][..1] == [a];
    assert [a][..0] == [];
  }
}
