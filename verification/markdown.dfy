/**
 The Markdown composer: a heading with the conversation title, then one block
 per message, each with a bold author line, the bodies of its parts and a
 horizontal rule.
 */
module Markdown {
  import opened Wrappers
  import opened ContentParts
  import opened Linearizer
  import opened Sequences

  /** The fixed placeholder printed for every asset, whatever it points to. */
  const AssetLine: string := "[File]: [asset_pointer]\n\n"

  /** The closing of every message block: a blank line, a rule and a blank line. */
  const Separator: string := "\n---\n\n"

  /** The document's first line and the blank line after it. */
  function Heading(title: string): string {
    "# " + title + "\n\n"
  }

  /** The bold author line opening a message block. */
  function AuthorLine(author: string): string {
    "**" + author + ":**\n\n"
  }

  /** The body of one part, chosen by priority: text, then transcript, then asset. */
  function PartBody(p: Part): string {
    if p.text != "" then p.text + "\n\n"
    else if p.transcript != "" then "[Transcript]\n" + p.transcript + "\n\n"
    else if p.asset.Some? then AssetLine
    else ""
  }

  /** The bodies of a message's parts, in part order. */
  function Bodies(parts: seq<Part>): string {
    if parts == [] then "" else PartBody(parts[0]) + Bodies(parts[1..])
  }

  /** One message block. */
  function Block(msg: Message): string {
    AuthorLine(msg.author) + Bodies(msg.parts) + Separator
  }

  /** The blocks of a message list, in message order. */
  function Blocks(msgs: seq<Message>): string {
    if msgs == [] then "" else Block(msgs[0]) + Blocks(msgs[1..])
  }

  /** The text up to, not including, the first line break. */
  function FirstLine(s: string): string {
    if s == [] || s[0] == '\n' then [] else [s[0]] + FirstLine(s[1..])
  }

  /** The title read back from a document's first line, if it is a heading. */
  function ParseTitle(doc: string): Option<string> {
    if |doc| >= 2 && doc[..2] == "# " then Some(FirstLine(doc[2..])) else None
  }

  /** The whole document for a title and an ordered message list; it is just
      the heading when there are no messages. */
  function Render(title: string, msgs: seq<Message>): (doc: string)
    ensures msgs == [] ==> doc == Heading(title)
  {
    Heading(title) + Blocks(msgs)
  }

  /** The Markdown document for a conversation. */
  function ComposeMarkdown(c: Conversation): string
    requires Terminates(c)
  {
    Render(c.title, GetConversationMessages(c))
  }

  /* ------------------------------------------------------------------------ */
  /*  Layout                                                                   */
  /* ------------------------------------------------------------------------ */

  lemma {:induction false} BodiesAppend(a: seq<Part>, b: seq<Part>)
    ensures Bodies(a + b) == Bodies(a) + Bodies(b)
    decreases |a|
  {
    if a == [] {
      assert a + b == b;
    } else {
      assert (a + b)[1..] == a[1..] + b;
      BodiesAppend(a[1..], b);
    }
  }

  lemma {:induction false} BlocksAppend(a: seq<Message>, b: seq<Message>)
    ensures Blocks(a + b) == Blocks(a) + Blocks(b)
    decreases |a|
  {
    if a == [] {
      assert a + b == b;
    } else {
      assert (a + b)[1..] == a[1..] + b;
      BlocksAppend(a[1..], b);
    }
  }

  /** Appending a message appends exactly its block: the author line, its part
      bodies in order, then the separator. */
  lemma RenderAppend(title: string, msgs: seq<Message>, msg: Message)
    ensures Render(title, msgs + [msg])
            == Render(title, msgs) + AuthorLine(msg.author) + Bodies(msg.parts) + Separator
  {
    BlocksAppend(msgs, [msg]);
    assert Blocks([msg]) == Block(msg) by {
      assert [msg][1..] == [];
    }
    var h, bs := Heading(title), Blocks(msgs);
    calc {
      Render(title, msgs + [msg]);
      h + (bs + Block(msg));
      { ConcatAssoc(h, bs, Block(msg)); }
      (h + bs) + Block(msg);
      { ConcatAssoc(h + bs, AuthorLine(msg.author) + Bodies(msg.parts), Separator);
        ConcatAssoc(h + bs, AuthorLine(msg.author), Bodies(msg.parts)); }
      Render(title, msgs) + AuthorLine(msg.author) + Bodies(msg.parts) + Separator;
    }
  }

  /** Every document opens with the heading, whatever the messages. */
  lemma HeadingPrefix(title: string, msgs: seq<Message>)
    ensures |Render(title, msgs)| >= |Heading(title)|
    ensures Render(title, msgs)[..|Heading(title)|] == Heading(title)
  {
  }

  /** A text part prints its text verbatim followed by a blank line, whatever else it carries. */
  lemma TextBody(p: Part)
    requires p.text != ""
    ensures PartBody(p) == p.text + "\n\n"
  {
  }

  /** Every part with only an asset prints the same placeholder, whatever the asset is. */
  lemma AssetBodyIgnoresAsset(p: Part, q: Part)
    requires IsAssetPart(p) && IsAssetPart(q)
    ensures PartBody(p) == PartBody(q) == AssetLine
  {
  }

  /** A part whose fields are all zero prints nothing. */
  lemma SilentPartIsInvisible(p: Part)
    requires IsSilentPart(p)
    ensures PartBody(p) == ""
  {
  }

  lemma {:induction false} FirstLineOf(t: string, rest: string)
    requires '\n' !in t
    ensures FirstLine(t + "\n" + rest) == t
    decreases |t|
  {
    if t != [] {
      assert (t + "\n" + rest)[1..] == t[1..] + "\n" + rest;
      FirstLineOf(t[1..], rest);
    }
  }

  /** The title is recovered from the rendered document when it has no line break. */
  lemma TitleRoundTrip(title: string, msgs: seq<Message>)
    requires '\n' !in title
    ensures ParseTitle(Render(title, msgs)) == Some(title)
  {
    var doc := Render(title, msgs);
    assert doc[2..] == title + "\n" + ("\n" + Blocks(msgs));
    FirstLineOf(title, "\n" + Blocks(msgs));
  }

  /* ------------------------------------------------------------------------ */
  /*  Composition with the lineariser                                          */
  /* ------------------------------------------------------------------------ */

  /** Every part the lineariser hands to the composer has an empty transcript,
      so its body is its text, the asset placeholder, or nothing: the
      transcript branch is never taken. */
  lemma TranscriptBranchUnreachable(c: Conversation)
    requires Terminates(c)
    ensures forall msg, q :: msg in GetConversationMessages(c) && q in msg.parts ==>
              q.transcript == ""
              && PartBody(q) == (if q.text != "" then q.text + "\n\n" else if q.asset.Some? then AssetLine else "")
  {
    EmittedMessagesWellFormed(c);
    forall msg, q | msg in GetConversationMessages(c) && q in msg.parts
      ensures q.transcript == ""
    {
      var id :| id in c.mapping && WellFormed(c.mapping[id], msg);
      assert Canonical(q);
    }
  }

  /** Two chained legacy text messages, a user "Hi" answered by an assistant
      "Hello!", under the title "Test". */
  function ExampleConversation(): Conversation {
    Conversation("Test", "n2", map[
      "n1" := Node(Some(MessageData("user", "text", [Decode(Str("Hi"))], false)), ""),
      "n2" := Node(Some(MessageData("assistant", "text", [Decode(Str("Hello!"))], false)), "n1")])
  }

  /** The lineariser puts the example's root message first and relabels the assistant. */
  lemma ExampleMessages()
    ensures Terminates(ExampleConversation())
    ensures GetConversationMessages(ExampleConversation())
            == [Message("user", [Part("Hi", "", None)]), Message("CHATGPT", [Part("Hello!", "", None)])]
  {
    var c := ExampleConversation();
    var m := c.mapping;
    assert |m| == 2 by {
      assert m.Keys == {"n1", "n2"};
    }
    assert Ends(m, "", 1);
    assert Ends(m, "n1", 2);
    assert Ends(m, "n2", 3);
    LegacyStringPart("Hi");
    LegacyStringPart("Hello!");
    var hi := Message("user", [Part("Hi", "", None)]);
    var hello := Message("CHATGPT", [Part("Hello!", "", None)]);
    assert Walk(m, "n1", 2) == [hi];
    assert Walk(m, "n2", 3) == [hello, hi];
  }

  lemma ExampleBlock(author: string, text: string)
    requires text != ""
    ensures Block(Message(author, [Part(text, "", None)])) == AuthorLine(author) + (text + "\n\n") + Separator
  {
    var parts := [Part(text, "", None)];
    assert Bodies(parts) == text + "\n\n" by {
      assert parts[1..] == [];
    }
  }

  lemma ExampleBlocks()
    ensures Blocks([Message("user", [Part("Hi", "", None)]), Message("CHATGPT", [Part("Hello!", "", None)])])
            == "**user:**\n\nHi\n\n\n---\n\n" + "**CHATGPT:**\n\nHello!\n\n\n---\n\n"
  {
    var hi := Message("user", [Part("Hi", "", None)]);
    var hello := Message("CHATGPT", [Part("Hello!", "", None)]);
    assert Block(hi) == "**user:**\n\nHi\n\n\n---\n\n" by {
      ExampleBlock("user", "Hi");
    }
    assert Block(hello) == "**CHATGPT:**\n\nHello!\n\n\n---\n\n" by {
      ExampleBlock("CHATGPT", "Hello!");
    }
    assert Blocks([hello]) == Block(hello) by {
      assert [hello][1..] == [];
    }
    assert [hi, hello][1..] == [hello];
  }

  lemma ExampleLiteral()
    ensures "# Test\n\n" + ("**user:**\n\nHi\n\n\n---\n\n" + "**CHATGPT:**\n\nHello!\n\n\n---\n\n")
            == "# Test\n\n**user:**\n\nHi\n\n\n---\n\n**CHATGPT:**\n\nHello!\n\n\n---\n\n"
  {
    var heading, first, second := "# Test\n\n", "**user:**\n\nHi\n\n\n---\n\n", "**CHATGPT:**\n\nHello!\n\n\n---\n\n";
    assert heading + first == "# Test\n\n**user:**\n\nHi\n\n\n---\n\n";
    assert (heading + first) + second
           == "# Test\n\n**user:**\n\nHi\n\n\n---\n\n**CHATGPT:**\n\nHello!\n\n\n---\n\n";
    ConcatAssoc(heading, first, second);
  }

  /** The two example messages render to exactly this document. */
  lemma ExampleRender()
    ensures Render("Test", [Message("user", [Part("Hi", "", None)]), Message("CHATGPT", [Part("Hello!", "", None)])])
            == "# Test\n\n**user:**\n\nHi\n\n\n---\n\n**CHATGPT:**\n\nHello!\n\n\n---\n\n"
  {
    ExampleBlocks();
    assert Heading("Test") == "# Test\n\n";
    ExampleLiteral();
  }

  /** The two-message example composes to exactly this document. */
  lemma WorkedExample()
    ensures Terminates(ExampleConversation())
    ensures ComposeMarkdown(ExampleConversation())
            == "# Test\n\n**user:**\n\nHi\n\n\n---\n\n**CHATGPT:**\n\nHello!\n\n\n---\n\n"
  {
    ExampleMessages();
    ExampleRender();
  }

  /* ------------------------------------------------------------------------ */
  /*  The builder loop                                                         */
  /* ------------------------------------------------------------------------ */

  /** The composer as a string builder: write the heading, then for each
      message its author line, the body of each part, and the separator. */
  method ComposeMarkdownLoop(c: Conversation) returns (sb: string)
    requires Terminates(c)
    ensures sb == ComposeMarkdown(c)
  {
    sb := Heading(c.title);
    var messages := GetConversationMessagesLoop(c);
    var i := 0;
    while i < |messages|
      invariant 0 <= i <= |messages|
      invariant sb == Render(c.title, messages[..i])
    {
      var msg := messages[i];
      RenderAppend(c.title, messages[..i], msg);
      assert messages[..i + 1] == messages[..i] + [msg];
      sb := sb + AuthorLine(msg.author);
      sb := WriteBodies(sb, msg.parts);
      sb := sb + Separator;
      i := i + 1;
    }
    assert messages[..i] == messages;
  }

  /** The inner loop of the builder: the body of each part, in part order. */
  method WriteBodies(acc: string, parts: seq<Part>) returns (sb: string)
    ensures sb == acc + Bodies(parts)
  {
    sb := acc;
    var j := 0;
    while j < |parts|
      invariant 0 <= j <= |parts|
      invariant sb == acc + Bodies(parts[..j])
    {
      var part := parts[j];
      BodiesSnoc(parts, j);
      ConcatAssoc(acc, Bodies(parts[..j]), PartBody(part));
      if part.text != "" {
        sb := sb + (part.text + "\n\n");
      } else if part.transcript != "" {
        sb := sb + ("[Transcript]\n" + part.transcript + "\n\n");
      } else if part.asset.Some? {
        sb := sb + AssetLine;
      }
      j := j + 1;
    }
    assert parts[..j] == parts;
  }

  lemma BodiesSnoc(parts: seq<Part>, j: nat)
    requires j < |parts|
    ensures Bodies(parts[..j + 1]) == Bodies(parts[..j]) + PartBody(parts[j])
  {
    assert parts[..j + 1] == parts[..j] + [parts[j]];
    BodiesAppend(parts[..j], [parts[j]]);
    assert [parts[j]][1..] == [];
  }
}
