/** The state `App` keeps between renders and the two handlers that change the message list:
    `fetchMessages` and `sendMessage` (src/App.jsx). */
module AppState {
  import opened Wrappers
  import opened Text
  import opened Reconcile

  /** Why a fetch produced no array: the request failed, the status was not ok, or the body
      was not JSON. The source logs all three and carries on. */
  datatype FetchError = NetworkError | HttpStatus(status: int) | BadJson

  /** The JSON body `sendMessage` posts to the message store. */
  datatype SendRequest = SendRequest(sender: string, receiver: string, text: string, gps: string)

  class App {
    var messages: seq<Message>
    var selectedNode: string
    var msgInput: string
    /** The seeded messages, kept to state that they stay at the head of the list. */
    ghost const seeds: seq<Message>

    /** The three predefined messages lead the list, in their original order. */
    ghost predicate Valid()
      reads this
    {
      && |seeds| == 3
      && (forall m :: m in seeds ==> IsBootstrap(m))
      && |messages| >= 3
      && messages[..3] == seeds
    }

    /** The initial state; each seeded message takes its `receivedAt` from the clock. */
    constructor (stamp1: string, stamp2: string, stamp3: string)
      ensures Valid()
      ensures messages == Seed(stamp1, stamp2, stamp3) && seeds == messages
      ensures selectedNode == "PodA" && msgInput == ""
    {
      var seed := Seed(stamp1, stamp2, stamp3);
      assert forall m :: m in seed ==> IsBootstrap(m) by {
        forall m | m in seed ensures IsBootstrap(m) {
          var k :| 0 <= k < 3 && seed[k] == m;
        }
      }
      assert seed[..3] == seed;
      messages := seed;
      seeds := seed;
      selectedNode := "PodA";
      msgInput := "";
    }

    /** Applies the outcome of one fetch: a failed fetch leaves the list alone, an array is
        merged into it. */
    method FetchMessages(response: Result<seq<Message>, FetchError>)
      requires Valid()
      modifies this`messages
      ensures Valid()
      ensures response.Failure? ==> messages == old(messages)
      ensures response.Success? ==> messages == MergeFetched(old(messages), response.value)
      ensures multiset(old(messages)) <= multiset(messages)
    {
      if response.Success? {
        var prev := messages;
        MergeKeepsPrevious(prev, response.value);
        messages := MergeFetched(prev, response.value);
        assert multiset(prev) <= multiset(messages) by {
          assert messages == messages[..|prev|] + messages[|prev|..];
        }
        assert prev == seeds + prev[3..];
        MergeKeepsLeadingBootstrap(seeds, prev[3..], response.value);
      }
    }

    /** The optimistic half of `sendMessage`: with a selected node and a non-blank input the
        typed text, untrimmed, is appended as a message from "Me" and the input is cleared;
        otherwise nothing changes. `clientId` is `Date.now().toString()`, `stamp` the local
        time. The request to post is returned. */
    method SendMessage(clientId: string, stamp: string) returns (request: Option<SendRequest>)
      requires Valid()
      modifies this`messages, this`msgInput
      ensures Valid()
      ensures request.None? <==> selectedNode == "" || Trim(old(msgInput)) == ""
      ensures request.None? ==> messages == old(messages) && msgInput == old(msgInput)
      ensures request.Some? ==>
        && messages == old(messages) + [Message(None, Some(clientId), Some("Me"),
             Some(selectedNode), Some(old(msgInput)), Some(""), Some(stamp))]
        && msgInput == ""
        && request.value == SendRequest("Me", selectedNode, old(msgInput), "")
    {
      if selectedNode == "" || Trim(msgInput) == "" {
        return None;
      }
      var text := msgInput;
      var sent := Message(None, Some(clientId), Some("Me"), Some(selectedNode), Some(text), Some(""), Some(stamp));
      messages := messages + [sent];
      msgInput := "";
      request := Some(SendRequest("Me", selectedNode, text, ""));
    }

    /** Clicking a node in the sidebar. */
    method SelectNode(node: string)
      modifies this`selectedNode
      ensures selectedNode == node
    {
      selectedNode := node;
    }

    /** Typing in the message box. */
    method TypeMessage(text: string)
      modifies this`msgInput
      ensures msgInput == text
    {
      msgInput := text;
    }
  }
}
