/**
 * The action menu under a giveaway card (`build_buttons`) and the callback
 * tokens its buttons carry, together with the parsing `on_button` applies to
 * a pressed button's data.
 */
module Menu {
  import opened Common
  import opened Tokens

  /** A keyboard button: either it opens a URL or it sends callback data back to the bot. */
  datatype Button = UrlButton(text: string, url: string) | CallbackButton(text: string, data: string)

  const OpenLinkLabel := "Открыть ссылку"
  const Remind10Label := "Напомнить за 10 мин"
  const Remind60Label := "за 1 час"
  const ArchiveLabel := "В архив"

  /** At most this many links get a button of their own. */
  const MaxLinkButtons := 4

  /** `f"remind:{gid}:{minutes}"`. */
  function RemindToken(gid: Id, minutes: nat): (r: string)
    ensures r == "remind:" + gid + ":" + NatToString(minutes)
    ensures StartsWith(r, "remind:")
  {
    var ds := NatToString(minutes);
    assert ["remind", gid, ds][1..] == [gid, ds] && [gid, ds][1..] == [ds];
    var r := Join(["remind", gid, ds], ':');
    assert Join([gid, ds], ':') == gid + [':'] + ds;
    assert "remind:" == "remind" + [':'] && ":" == [':'];
    assert r == "remind:" + gid + ":" + ds;
    assert r[..|"remind:"|] == "remind:";
    r
  }

  /** `f"archive:{gid}"`. */
  function ArchiveToken(gid: Id): (r: string)
    ensures r == "archive:" + gid
    ensures StartsWith(r, "archive:") && !StartsWith(r, "remind:")
  {
    assert ["archive", gid][1..] == [gid];
    var r := Join(["archive", gid], ':');
    assert Join([gid], ':') == gid;
    assert "archive:" == "archive" + [':'];
    assert r == "archive:" + gid;
    assert r[..|"archive:"|] == "archive:";
    assert r[0] != "remind:"[0];
    r
  }

  /**
   * `build_buttons`: one row per link for the first four links, then a row with
   * the two reminder buttons (10 and 60 minutes), then the archive row.
   */
  function BuildButtons(links: seq<string>, gid: Id): (rows: seq<seq<Button>>)
    ensures |rows| == Min(MaxLinkButtons, |links|) + 2
    ensures forall k :: 0 <= k < |rows| - 2 ==> rows[k] == [UrlButton(OpenLinkLabel, links[k])]
    ensures rows[|rows| - 2] == [CallbackButton(Remind10Label, RemindToken(gid, 10)),
                                 CallbackButton(Remind60Label, RemindToken(gid, 60))]
    ensures rows[|rows| - 1] == [CallbackButton(ArchiveLabel, ArchiveToken(gid))]
  {
    var shown := links[..Min(MaxLinkButtons, |links|)];
    var linkRows := seq(|shown|, k requires 0 <= k < |shown| => [UrlButton(OpenLinkLabel, shown[k])]);
    linkRows
      + [[CallbackButton(Remind10Label, RemindToken(gid, 10)), CallbackButton(Remind60Label, RemindToken(gid, 60))]]
      + [[CallbackButton(ArchiveLabel, ArchiveToken(gid))]]
  }

  /** What a pressed button asks for. */
  datatype Action =
    | RemindRequest(gid: Id, minutes: int)
    | ArchiveRequest(gid: Id)
      /** data with neither prefix: the handler does nothing after answering */
    | NotAnAction
      /** the unpacking of `split(":")` or `int(mins)` raises `ValueError` */
    | Malformed

  function StartsWith(s: string, prefix: string): (r: bool)
    ensures r <==> |prefix| <= |s| && forall k :: 0 <= k < |prefix| ==> s[k] == prefix[k]
    ensures r <==> exists rest :: s == prefix + rest
  {
    if |prefix| <= |s| && s[..|prefix|] == prefix then
      assert s == prefix + s[|prefix|..];
      true
    else
      false
  }

  /** The parsing branches of `on_button`. */
  function ParseCallback(data: string): (a: Action)
    ensures a.ArchiveRequest? ==> data == ArchiveToken(a.gid) && ':' !in a.gid
    ensures a.RemindRequest? ==>
              (&& ':' !in a.gid
               && exists ds :: ParseInt(ds) == Some(a.minutes) && data == Join(["remind", a.gid, ds], ':'))
    ensures a.NotAnAction? <==> !StartsWith(data, "remind:") && !StartsWith(data, "archive:")
  {
    if StartsWith(data, "remind:") then
      var parts := Split(data, ':');
      if |parts| != 3 then Malformed
      else match ParseInt(parts[2])
        case None => Malformed
        case Some(m) =>
          assert parts == [parts[0], parts[1], parts[2]];
          assert parts[0] == "remind" by { SplitHead(data, "remind"); }
          RemindRequest(parts[1], m)
    else if StartsWith(data, "archive:") then
      var parts := Split(data, ':');
      if |parts| != 2 then Malformed
      else
        assert parts == [parts[0], parts[1]];
        assert parts[0] == "archive" by { SplitHead(data, "archive"); }
        ArchiveRequest(parts[1])
    else NotAnAction
  }

  /** A string that starts with a colon-free word and a colon splits with that word first. */
  lemma SplitHead(data: string, word: string)
    requires ':' !in word
    requires StartsWith(data, word + ":")
    ensures Split(data, ':')[0] == word
  {
    var rest := data[|word| + 1..];
    assert data == word + [':'] + rest;
    SplitPrefix(word, rest, ':');
  }

  /**
   * Any `remind:<gid>:<n>` with colon-free parts parses as `int(n)` minutes
   * for that id when `n` is an `int()` literal, and is malformed otherwise.
   */
  lemma RemindParses(gid: string, ds: string)
    requires ':' !in gid && ':' !in ds
    ensures ParseCallback("remind:" + gid + ":" + ds)
            == (match ParseInt(ds) case Some(m) => RemindRequest(gid, m) case None => Malformed)
  {
    var parts := ["remind", gid, ds];
    SplitJoin(parts, ':');
    var data := "remind:" + gid + ":" + ds;
    assert parts[1..] == [gid, ds] && [gid, ds][1..] == [ds];
    assert Join([gid, ds], ':') == gid + [':'] + ds;
    assert data == "remind" + [':'] + (gid + [':'] + ds);
    assert Join(parts, ':') == data;
    assert StartsWith(data, "remind:");
  }

  /** Parsing a reminder token recovers exactly the id and the number of minutes. */
  lemma RemindRoundTrip(gid: Id, minutes: nat)
    requires ':' !in gid
    ensures ParseCallback(RemindToken(gid, minutes)) == RemindRequest(gid, minutes)
  {
    var ds := NatToString(minutes);
    DigitsHaveNoColon(minutes);
    var parts := ["remind", gid, ds];
    SplitJoin(parts, ':');
    var data := RemindToken(gid, minutes);
    assert parts[1..] == [gid, ds] && [gid, ds][1..] == [ds];
    assert Join([gid, ds], ':') == gid + [':'] + ds;
    assert data == "remind" + [':'] + (gid + [':'] + ds);
    assert StartsWith(data, "remind:");
    ParseFormat(minutes);
  }

  /** Parsing an archive token recovers exactly the id. */
  lemma ArchiveRoundTrip(gid: Id)
    requires ':' !in gid
    ensures ParseCallback(ArchiveToken(gid)) == ArchiveRequest(gid)
  {
    var parts := ["archive", gid];
    SplitJoin(parts, ':');
    var data := ArchiveToken(gid);
    assert data == "archive" + [':'] + gid;
    assert !StartsWith(data, "remind:") by { assert data[0] != 'r'; }
    assert StartsWith(data, "archive:");
  }

  /** Each button of a card's menu opens one of the links or carries one of the card's three tokens. */
  lemma MenuButtonKinds(links: seq<string>, gid: Id, row: seq<Button>, b: Button)
    requires row in BuildButtons(links, gid) && b in row
    ensures b.UrlButton? ==> b.url in links
    ensures b.CallbackButton? ==> b.data in {RemindToken(gid, 10), RemindToken(gid, 60), ArchiveToken(gid)}
  {
    var rows := BuildButtons(links, gid);
    var k :| 0 <= k < |rows| && rows[k] == row;
    if k < |rows| - 2 {
      assert b == UrlButton(OpenLinkLabel, links[k]);
    }
  }

  /**
   * Every callback button of a card's menu, when pressed, is parsed back into a
   * request about that card's id: a 10- or 60-minute reminder, or archiving.
   */
  lemma MenuCallbacksTargetCard(links: seq<string>, gid: Id)
    requires ':' !in gid
    ensures forall row, b :: row in BuildButtons(links, gid) && b in row && b.CallbackButton? ==>
              ParseCallback(b.data) in {RemindRequest(gid, 10), RemindRequest(gid, 60), ArchiveRequest(gid)}
    ensures forall row, b :: row in BuildButtons(links, gid) && b in row && b.UrlButton? ==> b.url in links
  {
    RemindRoundTrip(gid, 10);
    RemindRoundTrip(gid, 60);
    ArchiveRoundTrip(gid);
    forall row, b | row in BuildButtons(links, gid) && b in row
      ensures b.CallbackButton? ==> ParseCallback(b.data) in {RemindRequest(gid, 10), RemindRequest(gid, 60), ArchiveRequest(gid)}
      ensures b.UrlButton? ==> b.url in links
    {
      MenuButtonKinds(links, gid, row, b);
    }
  }
}
