/** Application settings (`backend/app/config.py`): the configured values and the
    parsing of the bot's allow-list of Telegram user ids.
 */
module Config {
  import opened Base
  import Text

  /** The settings the application reads from its environment. */
  datatype Settings = Settings(
    databaseUrl: string,
    telegramBotToken: string,
    authorizedUsers: string,      // comma-separated Telegram user ids
    googleClientId: string,
    googleClientSecret: string,
    googleCalendarId: string,
    backendHost: string,
    backendPort: int,
    frontendUrl: string)

  /** The values used for every setting the environment leaves unset. */
  const Defaults: Settings := Settings(
    databaseUrl := "sqlite:///./dashboard.db",
    telegramBotToken := "",
    authorizedUsers := "",
    googleClientId := "",
    googleClientSecret := "",
    googleCalendarId := "primary",
    backendHost := "0.0.0.0",
    backendPort := 8000,
    frontendUrl := "http://localhost:5173")

  /** The entries of a comma-separated list: every segment stripped, blank ones dropped,
      the rest kept in order (duplicates included). */
  function Entries(segments: seq<string>): (r: seq<string>)
    ensures |r| <= |segments|
    ensures forall k :: 0 <= k < |r| ==> r[k] != "" && Text.IsStripped(r[k])
  {
    if |segments| == 0 then []
    else
      var e := Text.Strip(segments[0]);
      (if e == "" then [] else [e]) + Entries(segments[1..])
  }

  /** The non-blank entries of the `authorized_users` setting. */
  function AllowListEntries(raw: string): seq<string> {
    Entries(Text.Split(raw, ','))
  }

  /** `[int(e) for e in entries]`: `None` as soon as one entry is not an integer,
      since the comprehension then raises instead of skipping it. */
  function ParseEntries(entries: seq<string>): (r: Option<seq<int>>)
    ensures r.Some? ==> |r.value| == |entries|
    ensures r.Some? ==> forall k :: 0 <= k < |entries| ==> Text.ParseInt(entries[k]) == Some(r.value[k])
    ensures r.None? ==> exists k :: 0 <= k < |entries| && Text.ParseInt(entries[k]).None?
  {
    if |entries| == 0 then Some([])
    else
      match (Text.ParseInt(entries[0]), ParseEntries(entries[1..]))
      case (Some(v), Some(vs)) =>
        assert forall k :: 1 <= k < |entries| ==> entries[k] == entries[1..][k - 1];
        Some([v] + vs)
      case (None, _) => None
      case (Some(_), None) =>
        var k :| 0 <= k < |entries[1..]| && Text.ParseInt(entries[1..][k]).None?;
        assert entries[k + 1] == entries[1..][k];
        None
  }

  /** `Settings.authorized_user_ids`: the allow-list of Telegram user ids, or `None`
      for the `ValueError` an entry that is not an integer raises. */
  function AuthorizedUserIds(raw: string): (r: Option<seq<int>>)
    ensures raw == "" ==> r == Some([])
    ensures raw != "" ==> r == ParseEntries(Entries(Text.Split(raw, ',')))
  {
    if raw == "" then
      assert Text.Split(raw, ',') == [""];
      assert Text.Strip("") == "";
      Some([])
    else ParseEntries(AllowListEntries(raw))
  }

  /** `TelegramBotService.is_authorized`: membership of the sender in the allow-list;
      `None` when reading the allow-list raises. */
  function IsAuthorized(raw: string, userId: int): (r: Option<bool>)
    ensures r.None? <==> AuthorizedUserIds(raw).None?
    ensures r == Some(true) <==> AuthorizedUserIds(raw).Some? && userId in AuthorizedUserIds(raw).value
  {
    match AuthorizedUserIds(raw)
    case None => None
    case Some(ids) => Some(userId in ids)
  }

  /** An unset allow-list authorizes nobody, without raising. */
  lemma {:induction false} EmptyAllowListAuthorizesNobody(userId: int)
    ensures AuthorizedUserIds("") == Some([])
    ensures IsAuthorized("", userId) == Some(false)
  {
  }

  /** `[str(i) for i in ids]`. */
  function Printed(ids: seq<int>): (r: seq<string>)
    ensures |r| == |ids|
    ensures forall k :: 0 <= k < |ids| ==> r[k] == Text.IntToString(ids[k])
  {
    if |ids| == 0 then [] else [Text.IntToString(ids[0])] + Printed(ids[1..])
  }

  /** The allow-list string that lists `ids` in order, comma-separated. */
  function FormatIds(ids: seq<int>): string {
    Text.Join(Printed(ids), ",")
  }

  /** One segment gives its stripped text, or nothing when that is blank. */
  lemma {:induction false} EntriesOfSegment(x: string)
    ensures Entries([x]) == if Text.Strip(x) == "" then [] else [Text.Strip(x)]
  {
    assert [x][1..] == [];
  }

  /** The entries of consecutive runs of segments follow each other: together with
      `EntriesOfSegment` this fixes the entries of every list of segments. */
  lemma {:induction false} EntriesAppend(a: seq<string>, b: seq<string>)
    ensures Entries(a + b) == Entries(a) + Entries(b)
    decreases |a|
  {
    if |a| > 0 {
      assert (a + b)[0] == a[0] && (a + b)[1..] == a[1..] + b;
      EntriesAppend(a[1..], b);
      var e := Text.Strip(a[0]);
      var h := if e == "" then [] else [e];
      assert Entries(a + b) == h + Entries(a[1..] + b);
      assert Entries(a) == h + Entries(a[1..]);
      assert h + (Entries(a[1..]) + Entries(b)) == (h + Entries(a[1..])) + Entries(b);
    } else {
      assert a + b == b;
    }
  }

  /** A setting written as comma-separated segments is read segment by segment:
      each stripped, blank ones dropped, the rest parsed in order. */
  lemma {:induction false} AllowListOfSegments(segments: seq<string>)
    requires |segments| >= 1
    requires forall k :: 0 <= k < |segments| ==> ',' !in segments[k]
    requires Text.Join(segments, ",") != ""
    ensures AuthorizedUserIds(Text.Join(segments, ",")) == ParseEntries(Entries(segments))
  {
    Text.SplitJoin(segments, ',');
  }

  /** Blanks around entries and empty segments are ignored; duplicates are kept. */
  lemma {:induction false} MessyAllowList()
    ensures AuthorizedUserIds(" 1, ,2 ,1") == Some([1, 2, 1])
  {
    var segments := [" 1", " ", "2 ", "1"];
    MessyJoin(segments);
    AllowListOfSegments(segments);
    MessyEntries(segments);
    MessyParse();
  }

  lemma {:induction false} MessyJoin(segments: seq<string>)
    requires segments == [" 1", " ", "2 ", "1"]
    ensures Text.Join(segments, ",") == " 1, ,2 ,1"
  {
    assert Text.Join(segments[3..], ",") == "1";
    assert Text.Join(segments[2..], ",") == "2 ,1";
    assert Text.Join(segments[1..], ",") == " ,2 ,1";
  }

  lemma {:induction false} MessyEntries(segments: seq<string>)
    requires segments == [" 1", " ", "2 ", "1"]
    ensures Entries(segments) == ["1", "2", "1"]
  {
    MessyStrips();
    assert segments[3..][1..] == [];
    assert Entries(segments[3..]) == ["1"];
    assert segments[2..][1..] == segments[3..];
    assert Entries(segments[2..]) == ["2"] + ["1"];
    assert segments[1..][1..] == segments[2..];
    assert Entries(segments[1..]) == ["2", "1"];
    assert Entries(segments) == ["1"] + ["2", "1"];
  }

  lemma {:induction false} MessyStrips()
    ensures Text.Strip(" 1") == "1" && Text.Strip(" ") == ""
    ensures Text.Strip("2 ") == "2" && Text.Strip("1") == "1"
  {
    StripAround(" 1", " ", "1", "");
    StripAround(" ", " ", "", "");
    StripAround("2 ", "", "2", " ");
    StripAround("1", "", "1", "");
  }

  lemma {:induction false} StripAround(s: string, a: string, r: string, b: string)
    requires s == a + r + b
    requires Text.AllSpace(a) && Text.AllSpace(b) && Text.IsStripped(r)
    ensures Text.Strip(s) == r
  {
    Text.StripOf(a, r, b);
  }

  lemma {:induction false} MessyParse()
    ensures ParseEntries(["1", "2", "1"]) == Some([1, 2, 1])
  {
    var entries := ["1", "2", "1"];
    assert Text.AllDigits("1") && Text.AllDigits("2");
    assert Text.DigitsValue("1") == 1 && Text.DigitsValue("2") == 2;
    assert forall k :: 0 <= k < |entries| ==> Text.ParseInt(entries[k]).Some?;
    var r := ParseEntries(entries).value;
    assert |r| == 3 && r[0] == 1 && r[1] == 2 && r[2] == 1;
    assert r == [1, 2, 1];
  }

  lemma {:induction false} EntriesOfCleanSegments(segments: seq<string>)
    requires forall k :: 0 <= k < |segments| ==> segments[k] != "" && Text.IsStripped(segments[k])
    ensures Entries(segments) == segments
    decreases |segments|
  {
    if |segments| > 0 {
      var e := segments[0];
      assert e == [] + e + [];
      Text.StripOf([], e, []);
      EntriesOfCleanSegments(segments[1..]);
      assert [e] + segments[1..] == segments;
    }
  }

  lemma {:induction false} ParsePrintedIds(ids: seq<int>)
    ensures ParseEntries(Printed(ids)) == Some(ids)
    decreases |ids|
  {
    if |ids| > 0 {
      ParsePrintedIds(ids[1..]);
      var p := Printed(ids);
      assert p[0] == Text.IntToString(ids[0]);
      assert Text.ParseInt(p[0]) == Some(ids[0]);
      assert p[1..] == Printed(ids[1..]);
      assert ParseEntries(p) == Some([ids[0]] + ids[1..]);
      assert [ids[0]] + ids[1..] == ids;
    }
  }

  /** A printed id is a non-empty, stripped entry without a comma. */
  lemma {:induction false} PrintedIsClean(n: int)
    ensures var p := Text.IntToString(n);
            ',' !in p && p != "" && Text.IsStripped(p)
  {
    var p := Text.IntToString(n);
    forall i | 0 <= i < |p|
      ensures p[i] != ',' && !Text.IsSpace(p[i])
    {
      assert p[i] == '-' || Text.IsDigit(p[i]);
    }
  }

  /** Reading back a formatted allow-list gives the same ids in the same order,
      duplicates included. */
  lemma {:induction false} FormatIdsRoundTrip(ids: seq<int>)
    ensures AuthorizedUserIds(FormatIds(ids)) == Some(ids)
  {
    var printed := Printed(ids);
    if |ids| > 0 {
      forall k | 0 <= k < |printed|
        ensures ',' !in printed[k] && printed[k] != "" && Text.IsStripped(printed[k])
      {
        PrintedIsClean(ids[k]);
      }
      Text.SplitJoin(printed, ',');
      assert FormatIds(ids) != "" by {
        if |printed| > 1 {
          assert FormatIds(ids) == printed[0] + "," + Text.Join(printed[1..], ",");
        }
      }
      EntriesOfCleanSegments(printed);
      ParsePrintedIds(ids);
    }
  }
}
