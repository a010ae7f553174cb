/**
 The message-to-rich-text transcoder of the forwarder's `handler`: a Telegram
 message body and its entities become a Lark "post" document
 `{ "en_us": { "content": [[ segment, ... ]] } }`.
 */
module Forwardgram {
  import PyStr

  /** A Telegram message entity. Only the link kind carries data the transcoder uses. */
  datatype Entity = TextUrl(url: string) | Bold | Underline | Other

  /** One element of the Lark row: `{tag: "text", text}` or `{tag: "a", href, text}`. */
  datatype Segment = Text(text: string) | Link(href: string, text: string) {
    function Tag(): string {
      if Text? then "text" else "a"
    }
  }

  /** The post document: one locale key whose `content` is a list of rows. */
  datatype Document = Document(locale: string, content: seq<seq<Segment>>)

  const Locale := "en_us"

  /** What the loop carries from one entity to the next: the unconsumed message
      and the segments appended so far. */
  datatype Cursor = Cursor(rest: string, row: seq<Segment>)

  /** One turn of the entity loop. The entity's own offset is not consulted:
      the word is searched for in what is left of the message. A link emits the
      text before the occurrence and the link, and cuts the message after it;
      any other kind changes nothing. */
  function Step(c: Cursor, e: Entity, w: string): Cursor {
    var offset := PyStr.Find(c.rest, w);
    var end := offset + |w|;
    if e.TextUrl? then
      Cursor(PyStr.Slice(c.rest, end, |c.rest|),
             c.row + [Text(PyStr.Slice(c.rest, 0, offset)), Link(e.url, PyStr.Slice(c.rest, offset, end))])
    else c
  }

  /** The cursor after the loop has processed every entity of `es` in order. */
  function Run(msg: string, es: seq<Entity>, ws: seq<string>): Cursor
    requires |es| == |ws|
    decreases |es|
  {
    if |es| == 0 then Cursor(msg, [])
    else Step(Run(msg, es[..|es| - 1], ws[..|ws| - 1]), es[|es| - 1], ws[|ws| - 1])
  }

  /** The one row of the document: the whole message when there are no entities,
      otherwise the loop's segments followed by what is left of the message. */
  function Row(msg: string, es: seq<Entity>, ws: seq<string>): seq<Segment>
    requires |es| == |ws|
  {
    if |es| == 0 then [Text(msg)]
    else
      var c := Run(msg, es, ws);
      c.row + [Text(c.rest)]
  }

  /** The document built for one message. */
  function Post(msg: string, es: seq<Entity>, ws: seq<string>): Document
    requires |es| == |ws|
  {
    Document(Locale, [Row(msg, es, ws)])
  }

  /** The segment-building body of `handler` for one output channel. `words[i]`
      is the inner text of `entities[i]`; an absent entity list is the empty one. */
  method Format(msg: string, entities: seq<Entity>, words: seq<string>) returns (doc: Document)
    requires |entities| == |words|
    ensures doc == Post(msg, entities, words)
    ensures doc.locale == Locale && |doc.content| == 1
    ensures |entities| == 0 ==> doc.content[0] == [Text(msg)]
  {
    var content: seq<Segment> := [];
    if |entities| > 0 {
      var rest := msg;
      for index := 0 to |words|
        invariant rest == Run(msg, entities[..index], words[..index]).rest
        invariant content == Run(msg, entities[..index], words[..index]).row
                             + (if index == |words| then [Text(rest)] else [])
      {
        ghost var before := Cursor(rest, content);
        assert Run(msg, entities[..index + 1], words[..index + 1])
            == Step(before, entities[index], words[index]) by {
          assert entities[..index + 1][..index] == entities[..index];
          assert words[..index + 1][..index] == words[..index];
        }
        var word := words[index];
        var offset := PyStr.Find(rest, word);
        var length := |word|;
        var end := offset + length;
        if entities[index].TextUrl? {
          content := content + [Text(PyStr.Slice(rest, 0, offset))];
          content := content + [Link(entities[index].url, PyStr.Slice(rest, offset, end))];
          rest := PyStr.Slice(rest, end, |rest|);
        }
        assert Cursor(rest, content) == Step(before, entities[index], words[index]);
        if index == |words| - 1 {
          content := content + [Text(rest)];
        }
      }
      assert entities[..|words|] == entities && words[..|words|] == words;
      assert content == Row(msg, entities, words);
    } else {
      content := content + [Text(msg)];
    }
    assert content == Row(msg, entities, words);
    doc := Document(Locale, [content]);
  }

  /** The handler's loop over the output channels: the document is rebuilt from
      the received message for every channel and handed to the sender. The
      result lists, in channel order, the documents sent. */
  method Handle<C>(outputs: seq<C>, msg: string, entities: seq<Entity>, words: seq<string>)
    returns (sent: seq<Document>)
    requires |entities| == |words|
    ensures |sent| == |outputs|
    ensures forall k :: 0 <= k < |sent| ==> sent[k] == Post(msg, entities, words)
    ensures forall i, j :: 0 <= i < |sent| && 0 <= j < |sent| ==> sent[i] == sent[j]
  {
    sent := [];
    for n := 0 to |outputs|
      invariant |sent| == n
      invariant forall k :: 0 <= k < n ==> sent[k] == Post(msg, entities, words)
    {
      var doc := Format(msg, entities, words);
      sent := sent + [doc];
    }
  }
}
