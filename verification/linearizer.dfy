/**
 The conversation lineariser: walks the parent links of a conversation's node
 map from its current node towards the root, keeps the messages that yield
 normalised content, relabels their authors, and returns them in
 chronological (root-to-leaf) order.
 */
module Linearizer {
  import opened Wrappers
  import opened ContentParts

  /** One message record: author role, content type, raw parts and the
      user-system-message flag from its metadata. */
  datatype MessageData = MessageData(
    role: string,
    contentType: string,
    parts: seq<PartData>,
    isUserSystemMessage: bool)

  /** A node of the conversation tree; an absent parent is the empty id. */
  datatype Node = Node(message: Option<MessageData>, parent: string)

  /** One exported conversation. */
  datatype Conversation = Conversation(title: string, currentNode: string, mapping: map<string, Node>)

  /** A normalised message: an author label and its non-empty parts. */
  datatype Message = Message(author: string, parts: seq<Part>)

  /** A map lookup that yields the zero node (no message, empty parent) for a missing id. */
  function Lookup(m: map<string, Node>, id: string): Node {
    if id in m then m[id] else Node(None, "")
  }

  /* ------------------------------------------------------------------------ */
  /*  Author labels and the per-node decision                                  */
  /* ------------------------------------------------------------------------ */

  /** The author label as a function of role and flag alone: assistant and tool
      become "CHATGPT", a flagged system message becomes "Custom User Info",
      every other role is kept. */
  function Relabel(role: string, isUserSystemMessage: bool): string {
    if role == "assistant" || role == "tool" then "CHATGPT"
    else if role == "system" && isUserSystemMessage then "Custom User Info"
    else role
  }

  /** The label as the lineariser computes it: the relabelling is guarded by a
      check on the raw parts and the system flag. Whenever the message has raw
      parts the guard makes no difference, and a message without raw parts
      keeps its role. */
  function AuthorLabel(msg: MessageData): (author: string)
    ensures |msg.parts| > 0 ==> author == Relabel(msg.role, msg.isUserSystemMessage)
    ensures |msg.parts| == 0 ==> author == msg.role
  {
    if |msg.parts| > 0 && (msg.role != "system" || msg.isUserSystemMessage) then
      if msg.role == "assistant" || msg.role == "tool" then "CHATGPT"
      else if msg.role == "system" && msg.isUserSystemMessage then "Custom User Info"
      else msg.role
    else msg.role
  }

  /** Only these message content types produce output. */
  predicate EligibleType(ct: string) {
    ct == "text" || ct == "multimodal"
  }

  /** `msg` is what a node legitimately contributes: the node has a message of an
      eligible type, `msg` carries its normalised parts, which are non-empty,
      and its author is the relabelled role. */
  predicate WellFormed(node: Node, msg: Message) {
    && node.message.Some?
    && EligibleType(node.message.value.contentType)
    && msg.parts == ProcessParts(node.message.value.parts)
    && msg.parts != []
    && msg.author == Relabel(node.message.value.role, node.message.value.isUserSystemMessage)
  }

  /** What one visited node contributes: nothing, or one message. */
  function Emit(node: Node): (r: seq<Message>)
    ensures |r| <= 1
    ensures r != [] <==> (node.message.Some? && EligibleType(node.message.value.contentType)
                          && ProcessParts(node.message.value.parts) != [])
    ensures r != [] ==> WellFormed(node, r[0])
  {
    match node.message
    case None => []
    case Some(msg) =>
      var author := AuthorLabel(msg);
      if msg.contentType == "text" || msg.contentType == "multimodal" then
        var parts := ProcessParts(msg.parts);
        if |parts| > 0 then [Message(author, parts)] else []
      else []
  }

  /** A system message without the user flag is still emitted, under its raw role. */
  lemma UnflaggedSystemMessageIsEmitted(text: string)
    requires text != ""
    ensures Emit(Node(Some(MessageData("system", "text", [PartData("", text, None, None, [])], false)), ""))
            == [Message("system", [Part(text, "", None)])]
    ensures Emit(Node(Some(MessageData("system", "text", [PartData("", text, None, None, [])], true)), ""))
            == [Message("Custom User Info", [Part(text, "", None)])]
  {
    var part := PartData("", text, None, None, []);
    assert ProcessParts([part]) == [Part(text, "", None)] by {
      assert [part][1..] == [];
    }
  }

  /** A message whose type is neither text nor multimodal emits nothing, whatever its parts. */
  lemma IneligibleTypeIsDropped(node: Node)
    requires node.message.Some? && !EligibleType(node.message.value.contentType)
    ensures Emit(node) == []
  {
  }

  /* ------------------------------------------------------------------------ */
  /*  The walk                                                                 */
  /* ------------------------------------------------------------------------ */

  /** The walk up from `id` stops within `fuel` iterations: each iteration
      consumes one unit and moves to the parent; a missing id moves to the
      empty id. */
  predicate Ends(m: map<string, Node>, id: string, fuel: nat)
    decreases fuel
  {
    id == "" || (fuel > 0 && Ends(m, Lookup(m, id).parent, fuel - 1))
  }

  /** The walk terminates: one more iteration than there are nodes is enough for
      every chain that terminates at all (see `TerminationBound`). */
  predicate Terminates(c: Conversation) {
    Ends(c.mapping, c.currentNode, |c.mapping| + 1)
  }

  /** The messages collected by the walk, leaf first. */
  function Walk(m: map<string, Node>, id: string, fuel: nat): seq<Message>
    requires Ends(m, id, fuel)
    decreases fuel
  {
    if id == "" then []
    else (if id in m then Emit(m[id]) else []) + Walk(m, Lookup(m, id).parent, fuel - 1)
  }

  /** The reverse of a sequence. */
  function Reverse<T>(s: seq<T>): (r: seq<T>)
    ensures |r| == |s|
    ensures forall k :: 0 <= k < |s| ==> r[k] == s[|s| - 1 - k]
  {
    if s == [] then [] else Reverse(s[1..]) + [s[0]]
  }

  /** The messages of a conversation in chronological order. */
  function GetConversationMessages(c: Conversation): seq<Message>
    requires Terminates(c)
  {
    Reverse(Walk(c.mapping, c.currentNode, |c.mapping| + 1))
  }

  /* ------------------------------------------------------------------------ */
  /*  The ancestry path                                                        */
  /* ------------------------------------------------------------------------ */

  /** The ids of the nodes the walk visits that are present in the map, leaf first. */
  function Ancestry(m: map<string, Node>, id: string, fuel: nat): (r: seq<string>)
    requires Ends(m, id, fuel)
    ensures |r| <= fuel
    ensures forall k :: 0 <= k < |r| ==> r[k] in m
    ensures forall k :: 0 <= k < |r| - 1 ==> m[r[k]].parent == r[k + 1]
    ensures id != "" && id in m <==> r != []
    ensures r != [] ==> r[0] == id
    ensures r != [] ==> m[r[|r| - 1]].parent == "" || m[r[|r| - 1]].parent !in m
    decreases fuel
  {
    if id == "" || id !in m then [] else [id] + Ancestry(m, m[id].parent, fuel - 1)
  }

  /** The messages contributed by a list of present ids, in list order. */
  function EmitAll(m: map<string, Node>, ids: seq<string>): seq<Message>
    requires forall k :: 0 <= k < |ids| ==> ids[k] in m
  {
    if ids == [] then [] else Emit(m[ids[0]]) + EmitAll(m, ids[1..])
  }

  lemma {:induction false} EmitAllAppend(m: map<string, Node>, a: seq<string>, b: seq<string>)
    requires forall k :: 0 <= k < |a| ==> a[k] in m
    requires forall k :: 0 <= k < |b| ==> b[k] in m
    ensures EmitAll(m, a + b) == EmitAll(m, a) + EmitAll(m, b)
    decreases |a|
  {
    if a == [] {
      assert a + b == b;
    } else {
      assert (a + b)[1..] == a[1..] + b;
      EmitAllAppend(m, a[1..], b);
    }
  }

  /** Because every node contributes at most one message, reversing the node
      order reverses the message order. */
  lemma {:induction false} EmitAllReverse(m: map<string, Node>, ids: seq<string>)
    requires forall k :: 0 <= k < |ids| ==> ids[k] in m
    ensures EmitAll(m, Reverse(ids)) == Reverse(EmitAll(m, ids))
    decreases |ids|
  {
    if ids != [] {
      var rest := ids[1..];
      EmitAllReverse(m, rest);
      EmitAllAppend(m, Reverse(rest), [ids[0]]);
      assert EmitAll(m, [ids[0]]) == Emit(m[ids[0]]) by {
        assert [ids[0]][1..] == [];
      }
      ReverseAppend(Emit(m[ids[0]]), EmitAll(m, rest));
    }
  }

  lemma ReverseAppend<T>(a: seq<T>, b: seq<T>)
    requires |a| <= 1
    ensures Reverse(a + b) == Reverse(b) + a
  {
  }


  /** The walk's messages are those of its ancestry path, leaf first. */
  lemma {:induction false} WalkIsEmitAll(m: map<string, Node>, id: string, fuel: nat)
    requires Ends(m, id, fuel)
    ensures Walk(m, id, fuel) == EmitAll(m, Ancestry(m, id, fuel))
    decreases fuel
  {
    if id != "" {
      WalkIsEmitAll(m, Lookup(m, id).parent, fuel - 1);
      if id in m {
        var a := Ancestry(m, id, fuel);
        assert a[1..] == Ancestry(m, m[id].parent, fuel - 1);
      }
    }
  }

  /* ------------------------------------------------------------------------ */
  /*  Termination                                                              */
  /* ------------------------------------------------------------------------ */

  lemma {:induction false} EndsMonotone(m: map<string, Node>, id: string, a: nat, b: nat)
    requires Ends(m, id, a) && a <= b
    ensures Ends(m, id, b)
    decreases a
  {
    if id != "" {
      EndsMonotone(m, Lookup(m, id).parent, a - 1, b - 1);
    }
  }

  /** The ancestry path does not depend on how much fuel was allowed. */
  lemma {:induction false} AncestryFuel(m: map<string, Node>, id: string, a: nat, b: nat)
    requires Ends(m, id, a) && Ends(m, id, b)
    ensures Ancestry(m, id, a) == Ancestry(m, id, b)
    decreases a
  {
    if id != "" && id in m {
      AncestryFuel(m, m[id].parent, a - 1, b - 1);
    }
  }

  /** The walk's messages do not depend on how much fuel was allowed. */
  lemma {:induction false} WalkFuel(m: map<string, Node>, id: string, a: nat, b: nat)
    requires Ends(m, id, a) && Ends(m, id, b)
    ensures Walk(m, id, a) == Walk(m, id, b)
    decreases a
  {
    if id != "" {
      WalkFuel(m, Lookup(m, id).parent, a - 1, b - 1);
    }
  }

  /** Equal ids have equal ancestry paths, whatever fuel each was given. */
  lemma AncestrySame(m: map<string, Node>, x: string, y: string, a: nat, b: nat)
    requires Ends(m, x, a) && Ends(m, y, b)
    ensures x == y ==> Ancestry(m, x, a) == Ancestry(m, y, b)
  {
    if x == y {
      AncestryFuel(m, x, a, b);
    }
  }

  /** A suffix of an ancestry path is the ancestry path of its first id. */
  lemma {:induction false} AncestrySuffix(m: map<string, Node>, id: string, fuel: nat, j: nat)
    requires Ends(m, id, fuel)
    requires j < |Ancestry(m, id, fuel)|
    ensures Ends(m, Ancestry(m, id, fuel)[j], fuel - j)
    ensures Ancestry(m, Ancestry(m, id, fuel)[j], fuel - j) == Ancestry(m, id, fuel)[j..]
    decreases j
  {
    if j > 0 {
      var a := Ancestry(m, id, fuel);
      var p := m[id].parent;
      assert a[1..] == Ancestry(m, p, fuel - 1);
      AncestrySuffix(m, p, fuel - 1, j - 1);
      assert a[1..][j - 1..] == a[j..];
    }
  }

  /** A terminating walk never visits the same node twice. */
  lemma {:induction false} AncestryDistinct(m: map<string, Node>, id: string, fuel: nat)
    requires Ends(m, id, fuel)
    ensures forall i, j :: 0 <= i < j < |Ancestry(m, id, fuel)| ==>
              Ancestry(m, id, fuel)[i] != Ancestry(m, id, fuel)[j]
    decreases fuel
  {
    if id != "" && id in m {
      var a := Ancestry(m, id, fuel);
      var p := m[id].parent;
      var rest := Ancestry(m, p, fuel - 1);
      assert a == [id] + rest;
      AncestryDistinct(m, p, fuel - 1);
      forall k | 0 <= k < |rest|
        ensures rest[k] != id
      {
        AncestrySuffix(m, p, fuel - 1, k);
        AncestrySame(m, rest[k], id, fuel - 1 - k, fuel);
      }
    }
  }

  /** A walk whose ancestry path has `n` nodes ends within `n + 1` iterations. */
  lemma {:induction false} EndsWithinAncestry(m: map<string, Node>, id: string, fuel: nat)
    requires Ends(m, id, fuel)
    ensures Ends(m, id, |Ancestry(m, id, fuel)| + 1)
    decreases fuel
  {
    if id != "" && id in m {
      EndsWithinAncestry(m, m[id].parent, fuel - 1);
    }
  }

  lemma {:induction false} DistinctCard(s: seq<string>)
    requires forall i, j :: 0 <= i < j < |s| ==> s[i] != s[j]
    ensures |set x | x in s| == |s|
    decreases |s|
  {
    if s != [] {
      DistinctCard(s[1..]);
      assert (set x | x in s) == {s[0]} + (set x | x in s[1..]);
    }
  }

  /** Every walk that terminates at all terminates within one more iteration
      than the map has nodes, so `Terminates` holds exactly when the walk from
      the current node halts. */
  lemma TerminationBound(m: map<string, Node>, id: string, fuel: nat)
    requires Ends(m, id, fuel)
    ensures Ends(m, id, |m| + 1)
  {
    var a := Ancestry(m, id, fuel);
    AncestryDistinct(m, id, fuel);
    DistinctCard(a);
    assert (set x | x in a) <= m.Keys;
    SubsetCard((set x | x in a), m.Keys);
    EndsWithinAncestry(m, id, fuel);
    EndsMonotone(m, id, |a| + 1, |m| + 1);
  }

  lemma SubsetCard(a: set<string>, b: set<string>)
    requires a <= b
    ensures |a| <= |b|
  {
    assert b == a + (b - a);
  }

  /* ------------------------------------------------------------------------ */
  /*  Properties of the lineariser                                             */
  /* ------------------------------------------------------------------------ */

  /** An empty current node, or one absent from the map, yields no messages. */
  lemma EmptyStart(c: Conversation)
    requires c.currentNode == "" || c.currentNode !in c.mapping
    ensures Terminates(c)
    ensures GetConversationMessages(c) == []
  {
    var m, id := c.mapping, c.currentNode;
    if id != "" {
      assert Lookup(m, id).parent == "";
      assert Ends(m, Lookup(m, id).parent, |m|);
      assert Walk(m, id, |m| + 1) == [];
    }
  }

  /** The messages are those of the ancestry path taken root first: reversing
      the leaf-to-root walk equals emitting along the root-to-leaf path. */
  lemma ChronologicalOrder(c: Conversation)
    requires Terminates(c)
    ensures GetConversationMessages(c)
            == EmitAll(c.mapping, Reverse(Ancestry(c.mapping, c.currentNode, |c.mapping| + 1)))
  {
    var m, fuel := c.mapping, |c.mapping| + 1;
    WalkIsEmitAll(m, c.currentNode, fuel);
    EmitAllReverse(m, Ancestry(m, c.currentNode, fuel));
  }

  lemma ReverseMembers<T>(s: seq<T>)
    ensures forall x :: x in Reverse(s) ==> x in s
  {
  }


  lemma {:induction false} EmitAllWellFormed(m: map<string, Node>, ids: seq<string>)
    requires forall k :: 0 <= k < |ids| ==> ids[k] in m
    ensures forall msg :: msg in EmitAll(m, ids) ==>
              exists id :: id in ids && id in m && WellFormed(m[id], msg)
    decreases |ids|
  {
    if ids != [] {
      EmitAllWellFormed(m, ids[1..]);
      forall msg | msg in EmitAll(m, ids)
        ensures exists id :: id in ids && id in m && WellFormed(m[id], msg)
      {
        if msg in Emit(m[ids[0]]) {
          assert WellFormed(m[ids[0]], msg);
        } else {
          assert msg in EmitAll(m, ids[1..]);
          var id :| id in ids[1..] && id in m && WellFormed(m[id], msg);
          assert id in ids;
        }
      }
    }
  }

  /** Every emitted message comes from a node on the ancestry path that has a
      message of type text or multimodal; it carries that message's normalised
      parts, which are non-empty, under the relabelled author. */
  lemma EmittedMessagesWellFormed(c: Conversation)
    requires Terminates(c)
    ensures forall msg :: msg in GetConversationMessages(c) ==>
              exists id :: id in Ancestry(c.mapping, c.currentNode, |c.mapping| + 1)
                           && id in c.mapping && WellFormed(c.mapping[id], msg)
  {
    var m, a := c.mapping, Ancestry(c.mapping, c.currentNode, |c.mapping| + 1);
    var ra := Reverse(a);
    ChronologicalOrder(c);
    ReverseMembers(a);
    EmitAllWellFormed(m, ra);
    forall msg | msg in GetConversationMessages(c)
      ensures exists id :: id in a && id in m && WellFormed(m[id], msg)
    {
      assert msg in EmitAll(m, ra);
      var id :| id in ra && id in m && WellFormed(m[id], msg);
      assert id in a;
    }
  }

  /* ------------------------------------------------------------------------ */
  /*  The loop                                                                 */
  /* ------------------------------------------------------------------------ */

  /** The two-index swap loop that reverses a list in place. */
  method ReverseInPlace<T>(s: seq<T>) returns (r: seq<T>)
    ensures r == Reverse(s)
  {
    r := s;
    var i: int, j: int := 0, |r| - 1;
    while i < j
      invariant 0 <= i <= j + 1 && i + j == |s| - 1
      invariant |r| == |s|
      invariant forall k :: 0 <= k < i ==> r[k] == s[|s| - 1 - k]
      invariant forall k :: j < k < |s| ==> r[k] == s[|s| - 1 - k]
      invariant forall k :: i <= k <= j ==> r[k] == s[k]
    {
      r := r[i := r[j]][j := r[i]];
      i, j := i + 1, j - 1;
    }
  }

  /** The lineariser's loop: follow parent links from the current node,
      accumulate the emitted messages leaf first, then reverse in place. */
  method GetConversationMessagesLoop(c: Conversation) returns (messages: seq<Message>)
    requires Terminates(c)
    ensures messages == GetConversationMessages(c)
  {
    var m := c.mapping;
    var acc: seq<Message> := [];
    var current := c.currentNode;
    ghost var fuel: nat := |m| + 1;
    while current != ""
      invariant Ends(m, current, fuel)
      invariant acc + Walk(m, current, fuel) == Walk(m, c.currentNode, |m| + 1)
      decreases fuel
    {
      ghost var emitted := if current in m then Emit(m[current]) else [];
      ghost var before := acc;
      if current in m && m[current].message.Some? {
        var msg := m[current].message.value;
        var author := msg.role;
        if |msg.parts| > 0 && (msg.role != "system" || msg.isUserSystemMessage) {
          if author == "assistant" || author == "tool" {
            author := "CHATGPT";
          } else if author == "system" && msg.isUserSystemMessage {
            author := "Custom User Info";
          }
        }
        assert author == AuthorLabel(msg);
        if msg.contentType == "text" || msg.contentType == "multimodal" {
          var parts := ProcessPartsLoop(msg.parts);
          if |parts| > 0 {
            acc := acc + [Message(author, parts)];
          }
        }
      }
      assert acc == before + emitted;
      current := Lookup(m, current).parent;
      fuel := fuel - 1;
    }
    messages := ReverseInPlace(acc);
  }
}
