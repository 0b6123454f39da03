/** The connection registry of the relay as a plain list of client handles.
    Handles are compared by identity; the type parameter H stands for the
    websocket object the gateway hands over. */
module Registry {

  /** No handle occurs twice. The registry does not enforce this itself:
      `connect` appends without looking. */
  ghost predicate Distinct<H>(s: seq<H>)
  {
    forall i, j :: 0 <= i < j < |s| ==> s[i] != s[j]
  }

  /** Position of the first occurrence of `h`, the one `list.remove` deletes. */
  function FirstIndex<H(==)>(s: seq<H>, h: H): (i: nat)
    requires h in s
    ensures i < |s| && s[i] == h && h !in s[..i]
  {
    if s[0] == h then 0
    else 1 + FirstIndex(s[1..], h)
  }

  /** `list.remove(h)`: the list without its first occurrence of `h`.
      Python raises when `h` is absent; callers model that case apart. */
  function RemoveFirst<H(==)>(s: seq<H>, h: H): (r: seq<H>)
    requires h in s
    ensures |r| == |s| - 1
  {
    if s[0] == h then s[1..] else [s[0]] + RemoveFirst(s[1..], h)
  }

  /** Removal deletes exactly the first occurrence and keeps everything
      else in its original relative order. */
  lemma {:induction false} RemoveFirstSplices<H>(s: seq<H>, h: H)
    requires h in s
    ensures RemoveFirst(s, h) == s[..FirstIndex(s, h)] + s[FirstIndex(s, h) + 1..]
  {
    if s[0] != h {
      RemoveFirstSplices(s[1..], h);
      var i := FirstIndex(s[1..], h);
      assert s[1..][..i] == s[1..i + 1];
      assert s[1..][i + 1..] == s[i + 2..];
      assert s[..i + 1] == [s[0]] + s[1..i + 1];
    }
  }

  /** Removal takes exactly one copy of `h` out of the multiset of handles. */
  lemma {:induction false} RemoveFirstMultiset<H>(s: seq<H>, h: H)
    requires h in s
    ensures multiset(RemoveFirst(s, h)) == multiset(s) - multiset{h}
  {
    if s[0] == h {
      assert s == [s[0]] + s[1..];
    } else {
      RemoveFirstMultiset(s[1..], h);
      assert s == [s[0]] + s[1..];
    }
  }

  /** A distinct registry stays distinct, and the removed handle is gone. */
  lemma RemoveFirstDistinct<H>(s: seq<H>, h: H)
    requires h in s && Distinct(s)
    ensures Distinct(RemoveFirst(s, h)) && h !in RemoveFirst(s, h)
  {
    RemoveFirstSplices(s, h);
    var i := FirstIndex(s, h);
    var r := RemoveFirst(s, h);
    forall a, b | 0 <= a < b < |r| ensures r[a] != r[b] {
      var a' := if a < i then a else a + 1;
      var b' := if b < i then b else b + 1;
      assert r[a] == s[a'] && r[b] == s[b'];
    }
    forall k | 0 <= k < |r| ensures r[k] != h {
      var k' := if k < i then k else k + 1;
      assert r[k] == s[k'];
    }
  }

  /** Connecting a handle that is not yet registered and then removing it
      gives back the registry as it was. */
  lemma {:induction false} RemoveAfterAppend<H>(s: seq<H>, h: H)
    requires h !in s
    ensures h in s + [h] && RemoveFirst(s + [h], h) == s
  {
    if s != [] {
      assert (s + [h])[1..] == s[1..] + [h];
      RemoveAfterAppend(s[1..], h);
      assert s == [s[0]] + s[1..];
    }
  }
}
