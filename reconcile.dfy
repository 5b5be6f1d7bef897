/** The message records and the merge that `fetchMessages` applies to the message list
    after a successful fetch (src/App.jsx). */
module Reconcile {
  import opened Wrappers
  import opened Seqs

  /** A string field of a JSON record; `None` when the field is absent. */
  type Field = Option<string>

  /** JavaScript truthiness of a field that holds a string or nothing. */
  predicate Truthy(f: Field)
  {
    f.Some? && f.value != ""
  }

  /** A message record. `id` is the server-assigned `_id`, `msgID` the client-assigned one. */
  datatype Message = Message(
    id: Field,
    msgID: Field,
    sender: Field,
    target: Field,
    text: Field,
    gps: Field,
    receivedAt: Field)

  /** The three messages the list is seeded with; each `receivedAt` comes from the clock. */
  function Seed(stamp1: string, stamp2: string, stamp3: string): (r: seq<Message>)
    ensures |r| == 3 && forall k :: 0 <= k < 3 ==> IsBootstrap(r[k])
  {
    [ Message(None, Some("1"), Some("PodA"), Some("Me"),
              Some("PodA active and sending location update."), Some("9.9312,76.2673"), Some(stamp1)),
      Message(None, Some("2"), Some("Me"), Some("PodA"),
              Some("Received your update PodA. Monitoring status."), Some(""), Some(stamp2)),
      Message(None, Some("3"), Some("PodA"), Some("Me"),
              Some("Battery 85%. Stable connection."), Some("9.9355,76.2659"), Some(stamp3)) ]
  }

  /** The identity a message is deduplicated by: `m._id || m.msgID`. */
  function Key(m: Message): Field
  {
    if Truthy(m.id) then m.id else m.msgID
  }

  /** `new Set(prev.map(m => m._id || m.msgID))`. */
  function KnownKeys(s: seq<Message>): set<Field>
  {
    set m | m in s :: Key(m)
  }

  /** The filter that keeps the predefined messages: client id "1", "2" or "3". */
  predicate IsBootstrap(m: Message)
  {
    m.msgID == Some("1") || m.msgID == Some("2") || m.msgID == Some("3")
  }

  predicate IsNotBootstrap(m: Message)
  {
    !IsBootstrap(m)
  }

  function IsUnseen(keys: set<Field>): Message -> bool
  {
    m => Key(m) !in keys
  }

  /** The remote entries whose key is not among the keys of `prev`, in remote order. */
  function Unseen(prev: seq<Message>, data: seq<Message>): (r: seq<Message>)
    ensures forall d <- r :: d in data && Key(d) !in KnownKeys(prev)
    ensures forall d <- data :: Key(d) !in KnownKeys(prev) ==> d in r
  {
    Filter(data, IsUnseen(KnownKeys(prev)))
  }

  /** The updater passed to `setMessages` after a successful fetch: predefined messages,
      then the other previous messages, then the unseen remote entries. */
  function MergeFetched(prev: seq<Message>, data: seq<Message>): (r: seq<Message>)
    ensures |r| == |prev| + |Unseen(prev, data)|
  {
    var b, o := Filter(prev, IsBootstrap), Filter(prev, IsNotBootstrap);
    FilterPartition(prev, IsBootstrap, IsNotBootstrap);
    assert |multiset(b)| + |multiset(o)| == |multiset(prev)|;
    b + o + Unseen(prev, data)
  }

  /** The merge keeps every previous message, as often as before, in the first |prev|
      places, and appends the unseen remote entries after them. */
  lemma MergeKeepsPrevious(prev: seq<Message>, data: seq<Message>)
    ensures var r := MergeFetched(prev, data);
      && |r| == |prev| + |Unseen(prev, data)|
      && multiset(r[..|prev|]) == multiset(prev)
      && r[|prev|..] == Unseen(prev, data)
      && forall m :: m in prev ==> multiset(r)[m] == multiset(prev)[m]
  {
    var r := MergeFetched(prev, data);
    var kept := Filter(prev, IsBootstrap) + Filter(prev, IsNotBootstrap);
    FilterPartition(prev, IsBootstrap, IsNotBootstrap);
    assert |multiset(kept)| == |multiset(prev)|;
    assert r[..|prev|] == kept && r[|prev|..] == Unseen(prev, data);
    forall m | m in prev
      ensures multiset(r)[m] == multiset(prev)[m]
    {
      assert Key(m) in KnownKeys(prev);
      assert m !in Unseen(prev, data);
      assert r == kept + Unseen(prev, data);
    }
  }

  /** The merged list is the predefined previous messages, then the other previous messages,
      then the remote entries with unseen keys, each segment exactly those elements in their
      original order. */
  lemma MergeLayout(prev: seq<Message>, data: seq<Message>) returns (nb: int)
    ensures var r := MergeFetched(prev, data);
      && 0 <= nb <= |prev| <= |r|
      && SelectsExactly(prev, IsBootstrap, r[..nb])
      && SelectsExactly(prev, IsNotBootstrap, r[nb..|prev|])
      && SelectsExactly(data, IsUnseen(KnownKeys(prev)), r[|prev|..])
  {
    var r := MergeFetched(prev, data);
    nb := |Filter(prev, IsBootstrap)|;
    MergeKeepsPrevious(prev, data);
    assert r[..nb] == Filter(prev, IsBootstrap);
    assert r[nb..|prev|] == Filter(prev, IsNotBootstrap);
    FilterSelects(prev, IsBootstrap);
    FilterSelects(prev, IsNotBootstrap);
    FilterSelects(data, IsUnseen(KnownKeys(prev)));
  }

  /** What the `_id || msgID` fallback does in the merge: a remote entry without a truthy
      `_id` is added exactly when its client id is not a previous key, and one with a truthy
      `_id` is added exactly when that `_id` is not a previous key, whatever its client id. */
  lemma MergeMatchesOnKey(prev: seq<Message>, data: seq<Message>, d: Message)
    requires d in data
    ensures |prev| <= |MergeFetched(prev, data)|
    ensures !Truthy(d.id) ==> (d in MergeFetched(prev, data)[|prev|..] <==> d.msgID !in KnownKeys(prev))
    ensures Truthy(d.id) ==> (d in MergeFetched(prev, data)[|prev|..] <==> d.id !in KnownKeys(prev))
  {
    MergeKeepsPrevious(prev, data);
  }

  /** A remote entry whose key is already known is never added; every remote entry whose key
      is unknown is. */
  lemma MergeAddsOnlyUnseenKeys(prev: seq<Message>, data: seq<Message>)
    ensures var r := MergeFetched(prev, data);
      && |prev| <= |r|
      && (forall j :: |prev| <= j < |r| ==> r[j] in data && Key(r[j]) !in KnownKeys(prev))
      && (forall d :: d in data && Key(d) !in KnownKeys(prev) ==> d in r[|prev|..])
  {
    var r := MergeFetched(prev, data);
    MergeKeepsPrevious(prev, data);
    forall j | |prev| <= j < |r|
      ensures r[j] in data && Key(r[j]) !in KnownKeys(prev)
    {
      assert r[j] == r[|prev|..][j - |prev|];
    }
  }

  /** A message is in the merged list exactly when it is a previous message or an added
      remote entry. */
  lemma MergeMembers(prev: seq<Message>, data: seq<Message>)
    ensures forall m :: m in MergeFetched(prev, data) <==> m in prev || m in Unseen(prev, data)
  {
    var r := MergeFetched(prev, data);
    var n := Unseen(prev, data);
    MergeKeepsPrevious(prev, data);
    assert r == r[..|prev|] + n;
    forall m | m in prev ensures m in r {
      assert multiset(r)[m] == multiset(prev)[m] > 0;
    }
    forall m | m in r ensures m in prev || m in n {
      if m in r[..|prev|] {
        assert m in multiset(r[..|prev|]);
      }
    }
  }

  /** Every key of the merged list is either a previous key or the key of an added entry, and
      every remote key is among them. */
  lemma MergeKnowsAllKeys(prev: seq<Message>, data: seq<Message>)
    ensures KnownKeys(MergeFetched(prev, data)) == KnownKeys(prev) + KnownKeys(Unseen(prev, data))
    ensures forall d :: d in data ==> Key(d) in KnownKeys(MergeFetched(prev, data))
  {
    var r := MergeFetched(prev, data);
    var n := Unseen(prev, data);
    MergeMembers(prev, data);
    forall k | k in KnownKeys(r) ensures k in KnownKeys(prev) + KnownKeys(n) {
      var m :| m in r && Key(m) == k;
      assert m in prev || m in n;
    }
    forall k | k in KnownKeys(prev) + KnownKeys(n) ensures k in KnownKeys(r) {
      if k in KnownKeys(prev) {
        var m :| m in prev && Key(m) == k;
        assert m in r;
      } else {
        var m :| m in n && Key(m) == k;
        assert m in r;
      }
    }
    forall d | d in data ensures Key(d) in KnownKeys(r) {
      if Key(d) !in KnownKeys(prev) {
        assert d in n && d in r;
      }
    }
  }

  /** On a list whose predefined messages lead, the two partitions are its two parts. */
  lemma PartitionOfOrdered(head: seq<Message>, rest: seq<Message>)
    requires forall m :: m in head ==> IsBootstrap(m)
    requires forall m :: m in rest ==> !IsBootstrap(m)
    ensures Filter(head + rest, IsBootstrap) == head
    ensures Filter(head + rest, IsNotBootstrap) == rest
  {
    FilterConcat(head, rest, IsBootstrap);
    FilterAll(head, IsBootstrap);
    FilterNone(rest, IsBootstrap);
    assert head + [] == head;
    FilterConcat(head, rest, IsNotBootstrap);
    FilterNone(head, IsNotBootstrap);
    FilterAll(rest, IsNotBootstrap);
  }

  /** Predefined messages at the head of the list stay there, in their order, after a merge. */
  lemma MergeKeepsLeadingBootstrap(head: seq<Message>, rest: seq<Message>, data: seq<Message>)
    requires forall m :: m in head ==> IsBootstrap(m)
    ensures |head| <= |MergeFetched(head + rest, data)|
    ensures MergeFetched(head + rest, data)[..|head|] == head
  {
    var s := head + rest;
    var b := Filter(s, IsBootstrap);
    var after := Filter(s, IsNotBootstrap) + Unseen(s, data);
    assert MergeFetched(s, data) == b + after;
    FilterConcat(head, rest, IsBootstrap);
    FilterAll(head, IsBootstrap);
    assert b == head + Filter(rest, IsBootstrap);
    assert (b + after)[..|head|] == b[..|head|] == head;
  }

  /** When the predefined messages already lead the list, the merge only appends the unseen
      remote entries. */
  lemma MergeAppendsWhenOrdered(head: seq<Message>, rest: seq<Message>, data: seq<Message>)
    requires forall m :: m in head ==> IsBootstrap(m)
    requires forall m :: m in rest ==> !IsBootstrap(m)
    ensures MergeFetched(head + rest, data) == head + rest + Unseen(head + rest, data)
  {
    PartitionOfOrdered(head, rest);
  }

  /** Merging the same remote array a second time changes nothing, provided no entry the
      first merge added carries a predefined client id. */
  lemma MergeIdempotent(prev: seq<Message>, data: seq<Message>)
    requires forall m :: m in Unseen(prev, data) ==> !IsBootstrap(m)
    ensures MergeFetched(MergeFetched(prev, data), data) == MergeFetched(prev, data)
  {
    var b, o, n := Filter(prev, IsBootstrap), Filter(prev, IsNotBootstrap), Unseen(prev, data);
    var r := MergeFetched(prev, data);
    assert r == b + (o + n);
    MergeAppendsWhenOrdered(b, o + n, data);
    MergeKnowsAllKeys(prev, data);
    FilterNone(data, IsUnseen(KnownKeys(r)));
    assert r + [] == r;
  }

  /** Why idempotence needs its precondition: when the previous list is already ordered and
      has a user message, a remote entry with an unseen key but a predefined client id is
      appended by the first merge and moved ahead of the user messages by the second. */
  lemma MergeReordersLateBootstrap(head: seq<Message>, rest: seq<Message>, x: Message)
    requires forall m :: m in head ==> IsBootstrap(m)
    requires forall m :: m in rest ==> !IsBootstrap(m)
    requires rest != [] && IsBootstrap(x) && Key(x) !in KnownKeys(head + rest)
    ensures MergeFetched(head + rest, [x]) == head + rest + [x]
    ensures MergeFetched(head + rest + [x], [x]) == head + [x] + rest
    ensures MergeFetched(MergeFetched(head + rest, [x]), [x]) != MergeFetched(head + rest, [x])
  {
    MergeAppendsUnseenOne(head, rest, x);
    MergeMovesKnownBootstrap(head, rest, x);
    var r := head + rest + [x];
    assert (head + [x] + rest)[|head|] == x;
    assert r[|head|] == rest[0];
  }

  lemma MergeAppendsUnseenOne(head: seq<Message>, rest: seq<Message>, x: Message)
    requires forall m :: m in head ==> IsBootstrap(m)
    requires forall m :: m in rest ==> !IsBootstrap(m)
    requires Key(x) !in KnownKeys(head + rest)
    ensures MergeFetched(head + rest, [x]) == head + rest + [x]
  {
    FilterAll([x], IsUnseen(KnownKeys(head + rest)));
    MergeAppendsWhenOrdered(head, rest, [x]);
  }

  lemma MergeMovesKnownBootstrap(head: seq<Message>, rest: seq<Message>, x: Message)
    requires forall m :: m in head ==> IsBootstrap(m)
    requires forall m :: m in rest ==> !IsBootstrap(m)
    requires IsBootstrap(x)
    ensures MergeFetched(head + rest + [x], [x]) == head + [x] + rest
  {
    var prev := head + rest;
    var r := prev + [x];
    PartitionOfOrdered(head, rest);
    FilterSnoc(prev, x, IsBootstrap);
    FilterSnoc(prev, x, IsNotBootstrap);
    assert x in r;
    FilterNone([x], IsUnseen(KnownKeys(r)));
    assert head + [x] + rest + [] == head + [x] + rest;
  }

  /** A remote copy keyed "2" is not added next to predefined message 2, while a genuinely new
      remote entry is appended: the seeded list grows to four messages. */
  lemma RemoteCopyOfSeedIsIgnored(t1: string, t2: string, t3: string, copy: Message, novel: Message)
    requires Key(copy) == Some("2")
    requires Key(novel) !in {Some("1"), Some("2"), Some("3")}
    ensures MergeFetched(Seed(t1, t2, t3), [copy, novel]) == Seed(t1, t2, t3) + [novel]
  {
    var seed := Seed(t1, t2, t3);
    var keys := KnownKeys(seed);
    assert Key(seed[1]) == Some("2");
    assert Key(copy) in keys;
    assert Key(novel) !in keys by {
      forall m | m in seed ensures Key(m) != Key(novel) {
        assert m == seed[0] || m == seed[1] || m == seed[2];
      }
    }
    var data := [copy, novel];
    assert data[..1] == [copy] && [copy][..0] == [];
    assert Filter([copy], IsUnseen(keys)) == [];
    assert Unseen(seed, data) == [novel];
    MergeAppendsWhenOrdered(seed, [], data);
    assert seed + [] == seed;
  }

  /** No two entries share a key. */
  predicate DistinctKeys(s: seq<Message>)
  {
    forall i, j :: 0 <= i < j < |s| ==> Key(s[i]) != Key(s[j])
  }

  /** Two equal keys in `s` belong to the same message. */
  ghost predicate KeyInjective(s: seq<Message>)
  {
    forall x, y :: x in s && y in s && Key(x) == Key(y) ==> x == y
  }

  lemma DistinctKeysIff(s: seq<Message>)
    ensures DistinctKeys(s) <==> NoDuplicates(s) && KeyInjective(s)
  {
    if DistinctKeys(s) {
      forall x, y | x in s && y in s && Key(x) == Key(y)
        ensures x == y
      {
        var i :| 0 <= i < |s| && s[i] == x;
        var j :| 0 <= j < |s| && s[j] == y;
        assert i == j;
      }
    }
  }

  /** Keys stay distinct across a merge when they were distinct in the previous list and
      in the remote array; the merge itself does not remove duplicates within the array. */
  lemma MergeKeepsKeysDistinct(prev: seq<Message>, data: seq<Message>)
    requires DistinctKeys(prev) && DistinctKeys(data)
    ensures DistinctKeys(MergeFetched(prev, data))
  {
    var b, o, n := Filter(prev, IsBootstrap), Filter(prev, IsNotBootstrap), Unseen(prev, data);
    var r := MergeFetched(prev, data);
    DistinctKeysIff(prev);
    DistinctKeysIff(data);
    FilterNoDuplicates(prev, IsBootstrap);
    FilterNoDuplicates(prev, IsNotBootstrap);
    FilterNoDuplicates(data, IsUnseen(KnownKeys(prev)));
    NoDuplicatesConcat(b, o);
    assert forall x :: x in n ==> Key(x) !in KnownKeys(prev);
    NoDuplicatesConcat(b + o, n);
    assert r == b + o + n;
    forall x, y | x in r && y in r && Key(x) == Key(y)
      ensures x == y
    {
      assert x in prev || x in n;
      assert y in prev || y in n;
    }
    DistinctKeysIff(r);
  }

  /** The reference example of a duplicate the merge lets through: two remote entries with
      the same unseen key are both appended. */
  lemma MergeKeepsRemoteDuplicates(prev: seq<Message>, d: Message)
    requires Key(d) !in KnownKeys(prev)
    ensures |prev| <= |MergeFetched(prev, [d, d])|
    ensures MergeFetched(prev, [d, d])[|prev|..] == [d, d]
  {
    MergeKeepsPrevious(prev, [d, d]);
    assert [d, d][..1] == [d];
  }
}
