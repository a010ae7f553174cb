/**
 What the transcoder guarantees about the row it builds: its shape (one text
 segment, then a text/link pair per link entity), which URL each link carries,
 where each link's text comes from, and that the texts put back together give
 the message whenever every link word is found at its turn.
 */
module PostProperties {
  import PyStr
  import opened Forwardgram

  /** The URLs of the link entities, in order. */
  function Urls(es: seq<Entity>): (r: seq<string>)
    decreases |es|
  {
    if |es| == 0 then []
    else Urls(es[..|es| - 1]) + (if es[|es| - 1].TextUrl? then [es[|es| - 1].url] else [])
  }

  /** The number of link entities. */
  function LinkCount(es: seq<Entity>): nat {
    |Urls(es)|
  }

  /** The `href` of every link segment, in order. */
  function Hrefs(row: seq<Segment>): seq<string>
    decreases |row|
  {
    if |row| == 0 then []
    else Hrefs(row[..|row| - 1]) + (if row[|row| - 1].Link? then [row[|row| - 1].href] else [])
  }

  /** The `text` fields of all segments, concatenated in order. */
  function Texts(row: seq<Segment>): string
    decreases |row|
  {
    if |row| == 0 then [] else Texts(row[..|row| - 1]) + row[|row| - 1].text
  }

  /** Every link entity's word is found in what is left of the message when the
      loop reaches it. */
  predicate AllFound(msg: string, es: seq<Entity>, ws: seq<string>)
    requires |es| == |ws|
  {
    forall k :: 0 <= k < |es| && es[k].TextUrl? ==>
      PyStr.Find(Run(msg, es[..k], ws[..k]).rest, ws[k]) >= 0
  }

  lemma PrefixOfPrefix<T>(s: seq<T>, k: nat)
    requires k < |s|
    ensures s[..|s| - 1][..k] == s[..k]
  {
  }

  lemma HrefsSnoc(row: seq<Segment>, x: Segment)
    ensures Hrefs(row + [x]) == Hrefs(row) + (if x.Link? then [x.href] else [])
  {
  }

  lemma TextsSnoc(row: seq<Segment>, x: Segment)
    ensures Texts(row + [x]) == Texts(row) + x.text
  {
  }

  /** A link entity whose word is found: the search result is the first
      occurrence and lies inside the remaining text; the text segment is exactly
      what precedes it, the link's text is the word and carries the entity's URL,
      and the message continues right after the word. Any other entity kind
      leaves the cursor as it was. */
  lemma StepFound(c: Cursor, e: Entity, w: string)
    ensures !e.TextUrl? ==> Step(c, e, w) == c
    ensures e.TextUrl? && PyStr.Find(c.rest, w) >= 0 ==>
      var offset := PyStr.Find(c.rest, w);
      var end := offset + |w|;
      && 0 <= offset <= end <= |c.rest|
      && (forall k :: 0 <= k < offset ==> !PyStr.OccursAt(c.rest, w, k))
      && Step(c, e, w) == Cursor(c.rest[end..], c.row + [Text(c.rest[..offset]), Link(e.url, w)])
      && c.rest == c.rest[..offset] + w + c.rest[end..]
  {
  }

  /** The loop's segments alternate text, link, text, link, ...: two per link
      entity, none for any other kind. */
  lemma {:induction false} RunShape(msg: string, es: seq<Entity>, ws: seq<string>)
    requires |es| == |ws|
    ensures |Run(msg, es, ws).row| == 2 * LinkCount(es)
    ensures forall p :: 0 <= p < |Run(msg, es, ws).row| ==>
      (Run(msg, es, ws).row[p].Text? <==> p % 2 == 0)
    decreases |es|
  {
    if |es| > 0 {
      RunShape(msg, es[..|es| - 1], ws[..|ws| - 1]);
    }
  }

  /** The row has one segment for a message without entities, and otherwise
      1 + 2 * (number of link entities) segments: tags alternate text, a, ...,
      text, and the last segment is the text left after the last link. */
  lemma RowShape(msg: string, es: seq<Entity>, ws: seq<string>)
    requires |es| == |ws|
    ensures |Row(msg, es, ws)| == 1 + 2 * LinkCount(es)
    ensures forall p :: 0 <= p < |Row(msg, es, ws)| ==>
      Row(msg, es, ws)[p].Tag() == if p % 2 == 0 then "text" else "a"
    ensures Row(msg, es, ws)[|Row(msg, es, ws)| - 1] == Text(Run(msg, es, ws).rest)
  {
    RunShape(msg, es, ws);
    var row := Row(msg, es, ws);
    forall p | 0 <= p < |row|
      ensures row[p].Tag() == if p % 2 == 0 then "text" else "a"
    {
      if p < |Run(msg, es, ws).row| {
        assert row[p] == Run(msg, es, ws).row[p];
      }
    }
  }

  /** Bold, underline and other non-link entities contribute no segments: with
      no link entity the row is the whole message as one text segment. */
  lemma {:induction false} NoLinksKeepsMessage(msg: string, es: seq<Entity>, ws: seq<string>)
    requires |es| == |ws| && LinkCount(es) == 0
    ensures Run(msg, es, ws) == Cursor(msg, [])
    ensures Row(msg, es, ws) == [Text(msg)]
    decreases |es|
  {
    if |es| > 0 {
      NoLinksKeepsMessage(msg, es[..|es| - 1], ws[..|ws| - 1]);
    }
  }

  /** The link segments carry, in order, exactly the URLs of the link entities. */
  lemma {:induction false} RunHrefs(msg: string, es: seq<Entity>, ws: seq<string>)
    requires |es| == |ws|
    ensures Hrefs(Run(msg, es, ws).row) == Urls(es)
    decreases |es|
  {
    if |es| > 0 {
      var c := Run(msg, es[..|es| - 1], ws[..|ws| - 1]);
      RunHrefs(msg, es[..|es| - 1], ws[..|ws| - 1]);
      var e := es[|es| - 1];
      if e.TextUrl? {
        var w := ws[|ws| - 1];
        var offset := PyStr.Find(c.rest, w);
        var t := Text(PyStr.Slice(c.rest, 0, offset));
        var l := Link(e.url, PyStr.Slice(c.rest, offset, offset + |w|));
        assert c.row + [t, l] == c.row + [t] + [l];
        HrefsSnoc(c.row, t);
        HrefsSnoc(c.row + [t], l);
      }
    }
  }

  /** The same for the whole row: the trailing text segment adds no URL. */
  lemma RowHrefs(msg: string, es: seq<Entity>, ws: seq<string>)
    requires |es| == |ws|
    ensures Hrefs(Row(msg, es, ws)) == Urls(es)
  {
    if |es| == 0 {
      assert Hrefs([Text(msg)]) == Hrefs([]) by {
        HrefsSnoc([], Text(msg));
      }
    } else {
      RunHrefs(msg, es, ws);
      HrefsSnoc(Run(msg, es, ws).row, Text(Run(msg, es, ws).rest));
    }
  }

  /** Processing more entities only appends: the segments of a prefix of the
      entity list are a prefix of the segments of the whole list. */
  lemma {:induction false} RunExtends(msg: string, es: seq<Entity>, ws: seq<string>, k: nat)
    requires |es| == |ws| && k <= |es|
    ensures Run(msg, es[..k], ws[..k]).row <= Run(msg, es, ws).row
    decreases |es|
  {
    if k < |es| {
      var es', ws' := es[..|es| - 1], ws[..|ws| - 1];
      RunExtends(msg, es', ws', k);
      PrefixOfPrefix(es, k);
      PrefixOfPrefix(ws, k);
    } else {
      assert es[..k] == es && ws[..k] == ws;
    }
  }

  /** The link entity at index `k` owns segments `2j` and `2j + 1` of the row,
      `j` being the number of link entities before it: a text segment holding
      what precedes the first occurrence of its word in the text left at its
      turn, then a link to its URL whose text is that word. */
  lemma LinkAt(msg: string, es: seq<Entity>, ws: seq<string>, k: nat)
    requires |es| == |ws| && k < |es| && es[k].TextUrl?
    requires PyStr.Find(Run(msg, es[..k], ws[..k]).rest, ws[k]) >= 0
    ensures
      var rest := Run(msg, es[..k], ws[..k]).rest;
      var offset := PyStr.Find(rest, ws[k]);
      var j := LinkCount(es[..k]);
      && 0 <= offset <= offset + |ws[k]| <= |rest|
      && 2 * j + 1 < |Row(msg, es, ws)|
      && Row(msg, es, ws)[2 * j] == Text(rest[..offset])
      && Row(msg, es, ws)[2 * j + 1] == Link(es[k].url, ws[k])
  {
    var c := Run(msg, es[..k], ws[..k]);
    assert es[..k + 1][..k] == es[..k] && ws[..k + 1][..k] == ws[..k];
    assert Run(msg, es[..k + 1], ws[..k + 1]) == Step(c, es[k], ws[k]);
    StepFound(c, es[k], ws[k]);
    RunShape(msg, es[..k], ws[..k]);
    RunExtends(msg, es, ws, k + 1);
    var whole := Run(msg, es, ws).row;
    var j := LinkCount(es[..k]);
    assert Run(msg, es[..k + 1], ws[..k + 1]).row[2 * j] == whole[2 * j];
    assert Run(msg, es[..k + 1], ws[..k + 1]).row[2 * j + 1] == whole[2 * j + 1];
    assert Row(msg, es, ws)[..|whole|] == whole;
  }

  /** One turn of the loop keeps "texts emitted + text left" unchanged, provided
      a link entity's word is found. */
  lemma StepPreserves(c: Cursor, e: Entity, w: string)
    requires e.TextUrl? ==> PyStr.Find(c.rest, w) >= 0
    ensures Texts(Step(c, e, w).row) + Step(c, e, w).rest == Texts(c.row) + c.rest
  {
    StepFound(c, e, w);
    if e.TextUrl? {
      var offset := PyStr.Find(c.rest, w);
      var t := Text(c.rest[..offset]);
      var l := Link(e.url, w);
      assert c.row + [t, l] == c.row + [t] + [l];
      TextsSnoc(c.row, t);
      TextsSnoc(c.row + [t], l);
    }
  }

  /** Content preservation for the loop: the texts emitted so far followed by the
      unconsumed message give back the message. */
  lemma {:induction false} RunPreserves(msg: string, es: seq<Entity>, ws: seq<string>)
    requires |es| == |ws| && AllFound(msg, es, ws)
    ensures Texts(Run(msg, es, ws).row) + Run(msg, es, ws).rest == msg
    decreases |es|
  {
    if |es| > 0 {
      var n := |es| - 1;
      var es', ws' := es[..n], ws[..n];
      forall k | 0 <= k < |es'| && es'[k].TextUrl?
        ensures PyStr.Find(Run(msg, es'[..k], ws'[..k]).rest, ws'[k]) >= 0
      {
        PrefixOfPrefix(es, k);
        PrefixOfPrefix(ws, k);
      }
      RunPreserves(msg, es', ws');
      StepPreserves(Run(msg, es', ws'), es[n], ws[n]);
    }
  }

  /** Content preservation: when every link word is found at its turn, the
      texts of the row's segments, concatenated, are the original message. */
  lemma ContentPreserved(msg: string, es: seq<Entity>, ws: seq<string>)
    requires |es| == |ws| && AllFound(msg, es, ws)
    ensures Texts(Row(msg, es, ws)) == msg
  {
    if |es| == 0 {
      TextsSnoc([], Text(msg));
    } else {
      RunPreserves(msg, es, ws);
      TextsSnoc(Run(msg, es, ws).row, Text(Run(msg, es, ws).rest));
    }
  }

  /** A word that occurs twice binds to its earlier occurrence, whatever the
      entity's own offset was. */
  lemma RepeatedWordBindsFirst()
    ensures Row("go go", [TextUrl("u")], ["go"]) == [Text(""), Link("u", "go"), Text(" go")]
  {
    var msg := "go go";
    assert PyStr.OccursAt(msg, "go", 0);
    StepFound(Cursor(msg, []), TextUrl("u"), "go");
    assert [TextUrl("u")][..0] == [] && ["go"][..0] == [];
  }

  lemma ZNotInAb()
    ensures PyStr.Find("ab", "z") == -1
  {
    forall k ensures !PyStr.OccursAt("ab", "z", k) {
      if 0 <= k < 2 {
        assert "ab"[k] != 'z';
      }
    }
  }

  /** Without the found condition the message is not preserved: a link word
      missing from the message makes `find` return -1, and Python's negative
      slices then repeat the text before the last character. */
  lemma MissingWordRepeatsText()
    ensures Row("ab", [TextUrl("u")], ["z"]) == [Text("a"), Link("u", ""), Text("ab")]
    ensures Texts(Row("ab", [TextUrl("u")], ["z"])) == "aab"
  {
    var msg := "ab";
    var row := [Text("a"), Link("u", ""), Text("ab")];
    ZNotInAb();
    assert [TextUrl("u")][..0] == [] && ["z"][..0] == [];
    assert Run(msg, [TextUrl("u")], ["z"]) == Step(Cursor(msg, []), TextUrl("u"), "z");
    assert PyStr.Slice(msg, 0, -1) == "a";
    assert PyStr.Slice(msg, -1, 0) == "";
    assert PyStr.Slice(msg, 0, 2) == "ab";
    assert Row(msg, [TextUrl("u")], ["z"]) == row;
    TextsSnoc([], row[0]);
    TextsSnoc(row[..1], row[1]);
    TextsSnoc(row[..2], row[2]);
    assert row[..1] + [row[1]] == row[..2];
    assert row[..2] + [row[2]] == row;
  }
}
