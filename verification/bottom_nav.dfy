/** The bottom navigation bar: which sheet the current location is about,
    read from the pathname with `/\/(example|whatsapp)\/?([^\/#?]+)?/`, and
    the WhatsApp link built from it. */
module BottomNav {
  import opened Optional
  import opened Text
  import Config

  /** `\/(example|whatsapp)` matches at position `p`. */
  predicate KeywordAt(path: string, p: nat) {
    p < |path| && path[p] == '/' &&
    (StartsWith(path[p + 1..], "example") || StartsWith(path[p + 1..], "whatsapp"))
  }

  /** Where the keyword matched at `p` ends. The alternatives start with
      different letters, so at most one of them matches. */
  function KeywordEnd(path: string, p: nat): (e: nat)
    requires KeywordAt(path, p)
    ensures p + 8 <= e <= p + 9 && e <= |path|
  {
    p + 1 + if StartsWith(path[p + 1..], "example") then 7 else 8
  }

  /** The regular expression is unanchored: the search tries each start
      position in turn and takes the first where the keyword matches. */
  function FirstKeyword(path: string, from: nat): (r: Option<nat>)
    ensures r.Some? ==> from <= r.value && KeywordAt(path, r.value)
    ensures r.Some? ==> forall q :: from <= q < r.value ==> !KeywordAt(path, q)
    ensures r.None? ==> forall q :: from <= q < |path| ==> !KeywordAt(path, q)
    decreases |path| - from
  {
    if from >= |path| then None
    else if KeywordAt(path, from) then Some(from)
    else FirstKeyword(path, from + 1)
  }

  /** The characters the segment class `[^\/#?]` excludes. */
  predicate IsStop(c: char) {
    c == '/' || c == '#' || c == '?'
  }

  /** A possible value of the captured segment. */
  predicate IsSegment(s: string) {
    s != "" && forall i :: 0 <= i < |s| ==> !IsStop(s[i])
  }

  /** `[^\/#?]*` taken greedily: the longest prefix free of stop characters. */
  function Run(s: string): (r: string)
    ensures |r| <= |s| && r == s[..|r|]
    ensures forall i :: 0 <= i < |r| ==> !IsStop(r[i])
    ensures |r| < |s| ==> IsStop(s[|r|])
  {
    if |s| == 0 || IsStop(s[0]) then "" else [s[0]] + Run(s[1..])
  }

  /** The second group of the match whose keyword is at `p`: skip one
      optional '/', then the longest run of segment characters, undefined
      when that run is empty. */
  function SegmentAt(path: string, p: nat): (r: Option<string>)
    requires KeywordAt(path, p)
    ensures r.Some? ==> IsSegment(r.value)
  {
    var rest := path[KeywordEnd(path, p)..];
    var after := if |rest| > 0 && rest[0] == '/' then rest[1..] else rest;
    var seg := Run(after);
    if seg == "" then None else Some(seg)
  }

  /** `match && match[2]`: the captured sheet segment, if any. It comes
      from the leftmost keyword occurrence, even when a later occurrence
      would have captured something; with no occurrence there is none. */
  function SheetSegment(path: string): (r: Option<string>)
    ensures r.Some? ==> IsSegment(r.value)
    ensures (forall q :: 0 <= q < |path| ==> !KeywordAt(path, q)) ==> r.None?
    ensures forall p :: 0 <= p < |path| && KeywordAt(path, p) && (forall q :: 0 <= q < p ==> !KeywordAt(path, q)) ==>
      r == SegmentAt(path, p)
  {
    match FirstKeyword(path, 0)
    case None => None
    case Some(p) => SegmentAt(path, p)
  }

  /** `currentSheet`: the captured segment, else the configured default. */
  function CurrentSheet(path: string, env: Option<string>): (s: string)
    ensures s != ""
    ensures SheetSegment(path).Some? ==> s == SheetSegment(path).value
    ensures SheetSegment(path).None? ==> s == Config.DefaultSheet(env)
  {
    SheetSegment(path).GetOr(Config.DefaultSheet(env))
  }

  const WhatsappPrefix: string := "/whatsapp/"

  /** The target of the WhatsApp link. */
  function WhatsappLink(path: string, env: Option<string>): (link: string)
    ensures StartsWith(link, WhatsappPrefix) && |link| > |WhatsappPrefix|
    ensures link[|WhatsappPrefix|..] == CurrentSheet(path, env)
  {
    WhatsappPrefix + CurrentSheet(path, env)
  }

  /** A path starting with "/whatsapp" has its leftmost keyword at 0,
      and the keyword ends after nine characters. */
  lemma {:induction false} WhatsappKeyword(path: string)
    requires |path| >= 9 && path[..9] == "/whatsapp"
    ensures FirstKeyword(path, 0) == Some(0) && KeywordEnd(path, 0) == 9
  {
    assert path[0] == path[..9][0];
    assert path[1..][..8] == path[..9][1..] == "whatsapp";
    assert path[1..][0] == path[..9][1] == 'w';
  }

  /** A path starting with "/example" has its leftmost keyword at 0, and
      the keyword ends after eight characters. */
  lemma {:induction false} ExampleKeyword(path: string)
    requires |path| >= 8 && path[..8] == "/example"
    ensures FirstKeyword(path, 0) == Some(0) && KeywordEnd(path, 0) == 8
  {
    assert path[0] == path[..8][0];
    assert path[1..][..7] == path[..8][1..] == "example";
  }

  /** A segment right after "/whatsapp/" and ended by a stop character or
      the end of the path is what the bar reads. */
  lemma {:induction false} SegmentAfterWhatsapp(s: string, tail: string)
    requires IsSegment(s)
    requires tail == "" || IsStop(tail[0])
    ensures SheetSegment(WhatsappPrefix + s + tail) == Some(s)
  {
    var path := WhatsappPrefix + s + tail;
    assert path[..9] == "/whatsapp";
    WhatsappKeyword(path);
    assert path[9..][0] == '/';
    assert path[9..][1..] == s + tail;
    RunStopsAt(s, tail);
  }

  /** The greedy run over `s + tail` is `s` when `s` has no stop character
      and `tail` begins with one (or is empty). */
  lemma {:induction false} RunStopsAt(s: string, tail: string)
    requires forall i :: 0 <= i < |s| ==> !IsStop(s[i])
    requires tail == "" || IsStop(tail[0])
    ensures Run(s + tail) == s
  {
    if |s| > 0 {
      assert (s + tail)[1..] == s[1..] + tail;
      RunStopsAt(s[1..], tail);
      assert [s[0]] + s[1..] == s;
    } else {
      assert s + tail == tail;
    }
  }

  /** Following the WhatsApp link keeps the sheet: the bar reads back the
      sheet it linked to, provided the default is itself a valid segment. */
  lemma LinkKeepsSheet(path: string, env: Option<string>)
    requires IsSegment(Config.DefaultSheet(env))
    ensures CurrentSheet(WhatsappLink(path, env), env) == CurrentSheet(path, env)
  {
    var s := CurrentSheet(path, env);
    SegmentAfterWhatsapp(s, "");
    assert WhatsappPrefix + s + "" == WhatsappLink(path, env);
  }

  /** What `"/whatsapp" + rest` captures: skip one optional '/', take the
      run of segment characters. */
  lemma WhatsappAtStart(rest: string)
    ensures var after := if |rest| > 0 && rest[0] == '/' then rest[1..] else rest;
      SheetSegment("/whatsapp" + rest) == if Run(after) == "" then None else Some(Run(after))
  {
    var path := "/whatsapp" + rest;
    assert path[..9] == "/whatsapp";
    WhatsappKeyword(path);
    assert path[9..] == rest;
  }

  /** What `"/example" + rest` captures. */
  lemma ExampleAtStart(rest: string)
    ensures var after := if |rest| > 0 && rest[0] == '/' then rest[1..] else rest;
      SheetSegment("/example" + rest) == if Run(after) == "" then None else Some(Run(after))
  {
    var path := "/example" + rest;
    assert path[..8] == "/example";
    ExampleKeyword(path);
    assert path[8..] == rest;
  }

  /** The slash after the keyword is optional (a worked example; the
      sample id is a parameter pinned to a literal). */
  lemma SlashOptional(id: string)
    requires id == "051025"
    ensures SheetSegment("/whatsapp" + id) == Some(id)
  {
    assert id[0] == '0' && id[1] == '5' && id[2] == '1' && id[3] == '0' && id[4] == '2' && id[5] == '5';
    RunStopsAt(id, "");
    assert id + "" == id;
    WhatsappAtStart(id);
  }

  /** The match does not need a word boundary: "/examples/x" captures "s". */
  lemma NoWordBoundary()
    ensures SheetSegment("/examples/x") == Some("s")
  {
    ExampleAtStart("s/x");
    assert "/example" + "s/x" == "/examples/x";
    RunStopsAt("s", "/x");
    assert "s" + "/x" == "s/x";
  }

  /** A keyword followed by nothing, or by a stop character, captures
      nothing. */
  lemma NoSegment()
    ensures SheetSegment("/whatsapp/") == None
    ensures SheetSegment("/whatsapp?x") == None
  {
    WhatsappAtStart("/");
    assert "/whatsapp" + "/" == "/whatsapp/";
    WhatsappAtStart("?x");
    assert "/whatsapp" + "?x" == "/whatsapp?x";
  }

  /** The leftmost keyword decides even when it captures nothing and a
      later one would (a worked example on a pinned sample path). */
  lemma LeftmostWins(path: string)
    requires path == "/whatsapp/?q/example/x"
    ensures SheetSegment(path) == None
  {
    assert path[..9] == "/whatsapp";
    WhatsappKeyword(path);
    assert path[9..][0] == '/' && path[9..][1..][0] == '?';
  }

  /** The routes say "eod-report", not "example": on the report page the
      bar falls back to the default sheet (a worked example on a pinned
      sample path). */
  lemma ReportRouteFallsBack(path: string, env: Option<string>)
    requires path == "/eod-report/051025"
    ensures SheetSegment(path) == None
    ensures CurrentSheet(path, env) == Config.DefaultSheet(env)
  {
    assert path[1..11] == "eod-report" && path[12..] == "051025";
    assert '/' !in path[1..11] && '/' !in path[12..];
    forall q | 0 <= q < |path|
      ensures !KeywordAt(path, q)
    {
      if q == 0 {
        assert path[1..][1] == 'o';
      } else if q == 11 {
        assert path[12..][0] == '0';
      } else if q < 11 {
        assert path[q] == path[1..11][q - 1];
      } else {
        assert path[q] == path[12..][q - 12];
      }
    }
  }
}
