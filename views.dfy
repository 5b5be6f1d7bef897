/** The values `App` derives from the message list on every render: the node list, the
    messages of the selected node and the latest GPS string for the map (src/App.jsx). */
module Views {
  import opened Wrappers
  import opened Text
  import opened Seqs
  import opened Reconcile

  /** The `nodeMsgs` filter: sent by `node`, or sent by "Me" to `node`. */
  predicate ForNode(m: Message, node: string)
  {
    m.sender == Some(node) || (m.sender == Some("Me") && m.target == Some(node))
  }

  function IsForNode(node: string): Message -> bool
  {
    m => ForNode(m, node)
  }

  /** `nodeMsgs`: the messages of the selected node's conversation. */
  function NodeMessages(messages: seq<Message>, node: string): (r: seq<Message>)
    ensures forall m <- r :: m in messages && ForNode(m, node)
    ensures forall m <- messages :: ForNode(m, node) ==> m in r
  {
    Filter(messages, IsForNode(node))
  }

  /** The node's messages are exactly the order-preserving subsequence of the messages that
      pass the sender/target test. */
  lemma NodeMessagesExactly(messages: seq<Message>, node: string)
    ensures exists idx :: (Picks(messages, NodeMessages(messages, node), idx)
      && forall i :: 0 <= i < |messages| ==> (ForNode(messages[i], node) <==> i in idx))
  {
    var idx := FilterIndices(messages, IsForNode(node));
    assert forall i :: 0 <= i < |messages| ==> IsForNode(node)(messages[i]) == ForNode(messages[i], node);
    assert Picks(messages, NodeMessages(messages, node), idx);
    assert forall i :: 0 <= i < |messages| ==> (ForNode(messages[i], node) <==> i in idx);
  }

  /** A message "Me" sends to `node` shows at the end of that node's conversation at once,
      and the conversations of the other nodes do not change. */
  lemma SentMessageVisible(messages: seq<Message>, m: Message, node: string, other: string)
    requires m.sender == Some("Me") && m.target == Some(node) && other != node && other != "Me"
    ensures NodeMessages(messages + [m], node) == NodeMessages(messages, node) + [m]
    ensures NodeMessages(messages + [m], other) == NodeMessages(messages, other)
  {
    FilterSnoc(messages, m, IsForNode(node));
    FilterSnoc(messages, m, IsForNode(other));
  }

  /** The `n && n !== "Me"` test on a sender or target. */
  predicate IsNodeName(f: Field)
  {
    Truthy(f) && f != Some("Me")
  }

  /** The names among `fields` that pass `IsNodeName`, in order. */
  function Names(fields: seq<Field>): (r: seq<string>)
    ensures forall n <- r :: n != "" && n != "Me" && Some(n) in fields
    ensures forall f <- fields :: IsNodeName(f) ==> f.value in r
  {
    var kept := Filter(fields, IsNodeName);
    assert forall k :: 0 <= k < |kept| ==> kept[k] in kept;
    var r := seq(|kept|, k requires 0 <= k < |kept| && kept[k].Some? => kept[k].value);
    assert forall k :: 0 <= k < |kept| ==> kept[k] == Some(r[k]);
    r
  }

  /** Where each name comes from: the names are the values of exactly the fields that pass
      `IsNodeName`, in the order of the fields. */
  lemma NamesIndices(fields: seq<Field>) returns (idx: seq<int>)
    ensures |idx| == |Names(fields)|
    ensures forall k :: 0 <= k < |idx| ==> 0 <= idx[k] < |fields| && fields[idx[k]] == Some(Names(fields)[k])
    ensures forall k, l :: 0 <= k < l < |idx| ==> idx[k] < idx[l]
    ensures forall i :: 0 <= i < |fields| ==> (IsNodeName(fields[i]) <==> i in idx)
  {
    var kept := Filter(fields, IsNodeName);
    idx := FilterIndices(fields, IsNodeName);
    forall k | 0 <= k < |idx|
      ensures fields[idx[k]] == Some(Names(fields)[k])
    {
      assert kept[k] in kept;
    }
  }

  lemma NamesConcat(a: seq<Field>, b: seq<Field>)
    ensures Names(a + b) == Names(a) + Names(b)
  {
    FilterConcat(a, b, IsNodeName);
  }

  function Senders(messages: seq<Message>): (r: seq<Field>)
    ensures |r| == |messages| && forall i :: 0 <= i < |r| ==> r[i] == messages[i].sender
  {
    seq(|messages|, i requires 0 <= i < |messages| => messages[i].sender)
  }

  function Targets(messages: seq<Message>): (r: seq<Field>)
    ensures |r| == |messages| && forall i :: 0 <= i < |r| ==> r[i] == messages[i].target
  {
    seq(|messages|, i requires 0 <= i < |messages| => messages[i].target)
  }

  /** `uniqueNodes`: every sender, then every target, without empty names, "Me" or repeats. */
  function UniqueNodes(messages: seq<Message>): (r: seq<string>)
    ensures NoDuplicates(r)
    ensures forall n <- r :: n != "" && n != "Me"
  {
    Dedup(Names(Senders(messages) + Targets(messages)))
  }

  /** A name is in the node list exactly when it is a non-empty name other than "Me" that
      some message has as sender or target; the list has no repeats. */
  lemma UniqueNodesCleanAndComplete(messages: seq<Message>, n: string)
    ensures NoDuplicates(UniqueNodes(messages))
    ensures n in UniqueNodes(messages) <==>
      n != "" && n != "Me" &&
      exists i :: 0 <= i < |messages| && (messages[i].sender == Some(n) || messages[i].target == Some(n))
  {
    if n in UniqueNodes(messages) {
      UniqueNodesSound(messages, n);
    } else if n != "" && n != "Me" {
      forall i | 0 <= i < |messages|
        ensures messages[i].sender != Some(n) && messages[i].target != Some(n)
      {
        UniqueNodesComplete(messages, i);
      }
    }
  }

  lemma UniqueNodesSound(messages: seq<Message>, n: string)
    requires n in UniqueNodes(messages)
    ensures n != "" && n != "Me"
    ensures exists i :: 0 <= i < |messages| && (messages[i].sender == Some(n) || messages[i].target == Some(n))
  {
    var ss, ts := Senders(messages), Targets(messages);
    assert n in Names(ss + ts);
    assert Some(n) in ss + ts;
    if Some(n) in ss {
      var k :| 0 <= k < |ss| && ss[k] == Some(n);
      assert messages[k].sender == Some(n);
    } else {
      assert Some(n) in ts;
      var k :| 0 <= k < |ts| && ts[k] == Some(n);
      assert messages[k].target == Some(n);
    }
  }

  lemma UniqueNodesComplete(messages: seq<Message>, i: int)
    requires 0 <= i < |messages|
    ensures IsNodeName(messages[i].sender) ==> messages[i].sender.value in UniqueNodes(messages)
    ensures IsNodeName(messages[i].target) ==> messages[i].target.value in UniqueNodes(messages)
  {
    var fields := Senders(messages) + Targets(messages);
    assert fields[i] == messages[i].sender;
    assert fields[|messages| + i] == messages[i].target;
  }

  /** The node list follows first occurrence, with every sender before every target: a name
      that some message sends from comes before a name that no message sends from. */
  lemma SendersBeforeTargets(messages: seq<Message>, i: int, j: int)
    requires 0 <= i < |UniqueNodes(messages)| && 0 <= j < |UniqueNodes(messages)|
    requires Some(UniqueNodes(messages)[i]) in Senders(messages)
    requires Some(UniqueNodes(messages)[j]) !in Senders(messages)
    ensures i < j
  {
    var ss, ts := Names(Senders(messages)), Names(Targets(messages));
    NamesConcat(Senders(messages), Targets(messages));
    var r := UniqueNodes(messages);
    assert r[i] in ss && r[j] !in ss;
    DedupKeepsPartsInOrder(ss, ts, i, j);
  }

  /** The first occurrence of a name among the kept names sits at the first field that
      holds that name. */
  lemma FirstNameAt(fields: seq<Field>, idx: seq<int>, a: int, p: int)
    requires |idx| == |Names(fields)|
    requires forall k :: 0 <= k < |idx| ==> 0 <= idx[k] < |fields| && fields[idx[k]] == Some(Names(fields)[k])
    requires forall k, l :: 0 <= k < l < |idx| ==> idx[k] < idx[l]
    requires forall i :: 0 <= i < |fields| ==> (IsNodeName(fields[i]) <==> i in idx)
    requires 0 <= a < |idx| && forall k :: 0 <= k < a ==> Names(fields)[k] != Names(fields)[a]
    requires 0 <= p < |fields| && fields[p] == Some(Names(fields)[a])
    requires forall k :: 0 <= k < p ==> fields[k] != fields[p]
    ensures idx[a] == p
  {
    var names := Names(fields);
    assert fields[idx[a]] == fields[p];
    assert names[a] in names;
    assert IsNodeName(fields[p]);
    var b :| 0 <= b < |idx| && idx[b] == p;
    assert names[b] == names[a];
  }

  /** After removing repeats, two kept names are in the order of their first occurrences
      among the fields. */
  lemma DedupNamesInFirstOccurrenceOrder(fields: seq<Field>, i: int, j: int, p: int, q: int)
    requires 0 <= i < |Dedup(Names(fields))| && 0 <= j < |Dedup(Names(fields))|
    requires 0 <= p < |fields| && fields[p] == Some(Dedup(Names(fields))[i])
    requires forall k :: 0 <= k < p ==> fields[k] != fields[p]
    requires 0 <= q < |fields| && fields[q] == Some(Dedup(Names(fields))[j])
    requires forall k :: 0 <= k < q ==> fields[k] != fields[q]
    ensures i < j <==> p < q
  {
    var names := Names(fields);
    var r := Dedup(names);
    var nIdx := NamesIndices(fields);
    var dIdx := DedupIndices(names);
    var a, b := dIdx[i], dIdx[j];
    FirstOccurrence(names, a);
    FirstOccurrence(names, b);
    FirstNameAt(fields, nIdx, a, p);
    FirstNameAt(fields, nIdx, b, q);
    IncreasingKeepsOrder(dIdx, i, j);
    IncreasingKeepsOrder(nIdx, a, b);
  }

  /** Two names that messages are sent from are listed in the order of their first sent
      messages. */
  lemma SendersInFirstSentOrder(messages: seq<Message>, i: int, j: int, p: int, q: int)
    requires 0 <= i < |UniqueNodes(messages)| && 0 <= j < |UniqueNodes(messages)|
    requires 0 <= p < |messages| && messages[p].sender == Some(UniqueNodes(messages)[i])
    requires forall k :: 0 <= k < p ==> messages[k].sender != messages[p].sender
    requires 0 <= q < |messages| && messages[q].sender == Some(UniqueNodes(messages)[j])
    requires forall k :: 0 <= k < q ==> messages[k].sender != messages[q].sender
    ensures i < j <==> p < q
  {
    var fields := Senders(messages) + Targets(messages);
    assert forall k :: 0 <= k < |messages| ==> fields[k] == messages[k].sender;
    DedupNamesInFirstOccurrenceOrder(fields, i, j, p, q);
  }

  /** The first message sent to a name that no message is sent from gives that name's first
      field among the senders followed by the targets. */
  lemma FirstTargetIsFirstField(messages: seq<Message>, p: int)
    requires 0 <= p < |messages|
    requires forall k :: 0 <= k < |messages| ==> messages[k].sender != messages[p].target
    requires forall k :: 0 <= k < p ==> messages[k].target != messages[p].target
    ensures var fields := Senders(messages) + Targets(messages);
      && |messages| + p < |fields|
      && fields[|messages| + p] == messages[p].target
      && forall k :: 0 <= k < |messages| + p ==> fields[k] != fields[|messages| + p]
  {
    var n := |messages|;
    var fields := Senders(messages) + Targets(messages);
    forall k | 0 <= k < n + p
      ensures fields[k] != fields[n + p]
    {
      if k < n {
        assert fields[k] == messages[k].sender;
      } else {
        assert fields[k] == messages[k - n].target;
      }
    }
  }

  /** Two names that no message is sent from are listed in the order of the first messages
      sent to them. */
  lemma TargetsInFirstTargetedOrder(messages: seq<Message>, i: int, j: int, p: int, q: int)
    requires 0 <= i < |UniqueNodes(messages)| && 0 <= j < |UniqueNodes(messages)|
    requires forall k :: 0 <= k < |messages| ==>
      messages[k].sender != Some(UniqueNodes(messages)[i]) && messages[k].sender != Some(UniqueNodes(messages)[j])
    requires 0 <= p < |messages| && messages[p].target == Some(UniqueNodes(messages)[i])
    requires forall k :: 0 <= k < p ==> messages[k].target != messages[p].target
    requires 0 <= q < |messages| && messages[q].target == Some(UniqueNodes(messages)[j])
    requires forall k :: 0 <= k < q ==> messages[k].target != messages[q].target
    ensures i < j <==> p < q
  {
    var n := |messages|;
    var fields := Senders(messages) + Targets(messages);
    FirstTargetIsFirstField(messages, p);
    FirstTargetIsFirstField(messages, q);
    DedupNamesInFirstOccurrenceOrder(fields, i, j, n + p, n + q);
  }

  /** The `gps && gps.trim()` test of the scan. */
  predicate HasGps(m: Message)
  {
    Truthy(m.gps) && Trim(m.gps.value) != ""
  }

  /** `latestGPS`: scanning backwards, the first gps string that is non-blank after trimming,
      returned untrimmed; `None` (null) when no message has one. */
  method LatestGps(nodeMsgs: seq<Message>) returns (gps: Option<string>)
    ensures gps.None? <==> forall i :: 0 <= i < |nodeMsgs| ==> !HasGps(nodeMsgs[i])
    ensures gps.Some? ==> exists i :: (0 <= i < |nodeMsgs| && HasGps(nodeMsgs[i]) &&
      nodeMsgs[i].gps == gps && forall j :: i < j < |nodeMsgs| ==> !HasGps(nodeMsgs[j]))
  {
    var i := |nodeMsgs| - 1;
    while i >= 0 && !HasGps(nodeMsgs[i])
      invariant -1 <= i < |nodeMsgs|
      invariant forall j :: i < j < |nodeMsgs| ==> !HasGps(nodeMsgs[j])
    {
      i := i - 1;
    }
    if i < 0 {
      gps := None;
    } else {
      assert HasGps(nodeMsgs[i]);
      gps := nodeMsgs[i].gps;
    }
  }

  /** A gps string counts exactly when it holds a character other than whitespace. */
  lemma HasGpsIffNotBlank(m: Message)
    ensures HasGps(m) <==> m.gps.Some? && !Blank(m.gps.value)
  {
    if m.gps.Some? {
      TrimEmptyIffBlank(m.gps.value);
    }
  }
}
