/**
 * The pure helpers of the browser page (code/frontend/app.js): HTML escaping of
 * the values shown in the loans table, the service base URL and the request
 * URLs built from it, the predicates that enable the Collect and Return buttons,
 * and the check the reservation form makes before it sends anything.
 */
module Frontend {
  import opened Wrappers
  import opened JsText
  import Loans
  import Calendar

  /** s.replaceAll(c, rep) for a one-character pattern. */
  function ReplaceAll(s: string, c: char, rep: string): (r: string)
  {
    if s == [] then [] else (if s[0] == c then rep else [s[0]]) + ReplaceAll(s[1..], c, rep)
  }

  /** escapeHtml: the five replaceAll calls, "&" first. */
  function EscapeHtml(s: string): string
  {
    ReplaceAll(ReplaceAll(ReplaceAll(ReplaceAll(ReplaceAll(s,
      '&', "&amp;"), '<', "&lt;"), '>', "&gt;"), '"', "&quot;"), '\'', "&#039;")
  }

  /** The text one character becomes in the escaped string. */
  function EscapeChar(c: char): string
  {
    if c == '&' then "&amp;"
    else if c == '<' then "&lt;"
    else if c == '>' then "&gt;"
    else if c == '"' then "&quot;"
    else if c == '\'' then "&#039;"
    else [c]
  }

  /** Each character replaced by its own chunk, left to right. */
  function EscapeEach(s: string): string
  {
    if s == [] then [] else EscapeChar(s[0]) + EscapeEach(s[1..])
  }

  predicate IsHtmlSpecial(c: char)
  {
    c == '&' || c == '<' || c == '>' || c == '"' || c == '\''
  }

  lemma {:induction false} ReplaceAllConcat(a: string, b: string, c: char, rep: string)
    ensures ReplaceAll(a + b, c, rep) == ReplaceAll(a, c, rep) + ReplaceAll(b, c, rep)
    decreases |a|
  {
    if a == [] {
      assert a + b == b;
    } else {
      var h := if a[0] == c then rep else [a[0]];
      assert (a + b)[0] == a[0] && (a + b)[1..] == a[1..] + b;
      assert ReplaceAll(a + b, c, rep) == h + ReplaceAll(a[1..] + b, c, rep);
      ReplaceAllConcat(a[1..], b, c, rep);
      assert ReplaceAll(a, c, rep) == h + ReplaceAll(a[1..], c, rep);
    }
  }

  lemma ReplaceAllOne(x: char, c: char, rep: string)
    ensures ReplaceAll([x], c, rep) == if x == c then rep else [x]
  {
    assert [x][1..] == [];
  }

  lemma {:induction false} ReplaceAllAbsent(s: string, c: char, rep: string)
    requires c !in s
    ensures ReplaceAll(s, c, rep) == s
    decreases |s|
  {
    if s != [] {
      ReplaceAllAbsent(s[1..], c, rep);
    }
  }

  lemma EscapeHtmlConcat(a: string, b: string)
    ensures EscapeHtml(a + b) == EscapeHtml(a) + EscapeHtml(b)
  {
    var a1, b1 := ReplaceAll(a, '&', "&amp;"), ReplaceAll(b, '&', "&amp;");
    ReplaceAllConcat(a, b, '&', "&amp;");
    var a2, b2 := ReplaceAll(a1, '<', "&lt;"), ReplaceAll(b1, '<', "&lt;");
    ReplaceAllConcat(a1, b1, '<', "&lt;");
    var a3, b3 := ReplaceAll(a2, '>', "&gt;"), ReplaceAll(b2, '>', "&gt;");
    ReplaceAllConcat(a2, b2, '>', "&gt;");
    var a4, b4 := ReplaceAll(a3, '"', "&quot;"), ReplaceAll(b3, '"', "&quot;");
    ReplaceAllConcat(a3, b3, '"', "&quot;");
    ReplaceAllConcat(a4, b4, '\'', "&#039;");
  }

  /** One replaceAll stage applied to text that does not hold its pattern. */
  lemma StagesKeep(s: string, p1: char, r1: string, p2: char, r2: string)
    requires p1 !in s && p2 !in s
    ensures ReplaceAll(ReplaceAll(s, p1, r1), p2, r2) == s
  {
    ReplaceAllAbsent(s, p1, r1);
    ReplaceAllAbsent(s, p2, r2);
  }

  lemma EscapeAmpersand()
    ensures EscapeHtml("&") == "&amp;"
  {
    ReplaceAllOne('&', '&', "&amp;");
    StagesKeep("&amp;", '<', "&lt;", '>', "&gt;");
    StagesKeep("&amp;", '"', "&quot;", '\'', "&#039;");
  }

  lemma EscapeLess()
    ensures EscapeHtml("<") == "&lt;"
  {
    ReplaceAllOne('<', '&', "&amp;");
    ReplaceAllOne('<', '<', "&lt;");
    StagesKeep("&lt;", '>', "&gt;", '"', "&quot;");
    ReplaceAllAbsent("&lt;", '\'', "&#039;");
  }

  lemma EscapeGreater()
    ensures EscapeHtml(">") == "&gt;"
  {
    ReplaceAllOne('>', '&', "&amp;");
    ReplaceAllOne('>', '<', "&lt;");
    ReplaceAllOne('>', '>', "&gt;");
    StagesKeep("&gt;", '"', "&quot;", '\'', "&#039;");
  }

  lemma EscapeQuote()
    ensures EscapeHtml("\"") == "&quot;"
  {
    ReplaceAllOne('"', '&', "&amp;");
    ReplaceAllOne('"', '<', "&lt;");
    ReplaceAllOne('"', '>', "&gt;");
    ReplaceAllOne('"', '"', "&quot;");
    ReplaceAllAbsent("&quot;", '\'', "&#039;");
  }

  lemma EscapeApostrophe()
    ensures EscapeHtml("'") == "&#039;"
  {
    ReplaceAllOne('\'', '&', "&amp;");
    ReplaceAllOne('\'', '<', "&lt;");
    ReplaceAllOne('\'', '>', "&gt;");
    ReplaceAllOne('\'', '"', "&quot;");
    ReplaceAllOne('\'', '\'', "&#039;");
  }

  lemma EscapeOrdinary(c: char)
    requires !IsHtmlSpecial(c)
    ensures EscapeHtml([c]) == [c]
  {
    ReplaceAllOne(c, '&', "&amp;");
    ReplaceAllOne(c, '<', "&lt;");
    ReplaceAllOne(c, '>', "&gt;");
    ReplaceAllOne(c, '"', "&quot;");
    ReplaceAllOne(c, '\'', "&#039;");
  }

  /** The chain applied to one character: the later replacements never touch the
      entity an earlier one produced. */
  lemma EscapeHtmlChar(c: char)
    ensures EscapeHtml([c]) == EscapeChar(c)
  {
    if c == '&' {
      EscapeAmpersand();
    } else if c == '<' {
      EscapeLess();
    } else if c == '>' {
      EscapeGreater();
    } else if c == '"' {
      EscapeQuote();
    } else if c == '\'' {
      EscapeApostrophe();
    } else {
      EscapeOrdinary(c);
    }
  }

  /** The chained replaceAll calls escape each character on its own. */
  lemma {:induction false} EscapeHtmlPerChar(s: string)
    ensures EscapeHtml(s) == EscapeEach(s)
    decreases |s|
  {
    if s == [] {
    } else {
      assert s == [s[0]] + s[1..];
      EscapeHtmlConcat([s[0]], s[1..]);
      EscapeHtmlChar(s[0]);
      EscapeHtmlPerChar(s[1..]);
    }
  }

  lemma {:induction false} EscapeEachSafe(s: string)
    ensures forall i :: 0 <= i < |EscapeEach(s)| ==> !(EscapeEach(s)[i] in "<>\"'")
    decreases |s|
  {
    if s != [] {
      EscapeEachSafe(s[1..]);
      var h, t := EscapeChar(s[0]), EscapeEach(s[1..]);
      assert forall i :: 0 <= i < |h| ==> !(h[i] in "<>\"'");
      assert EscapeEach(s) == h + t;
    }
  }

  /** The escaped text contains none of < > " '. */
  lemma EscapeHtmlSafe(s: string)
    ensures forall i :: 0 <= i < |EscapeHtml(s)| ==> !(EscapeHtml(s)[i] in "<>\"'")
  {
    EscapeHtmlPerChar(s);
    EscapeEachSafe(s);
  }

  lemma {:induction false} EscapeEachPlain(s: string)
    requires forall i :: 0 <= i < |s| ==> !IsHtmlSpecial(s[i])
    ensures EscapeEach(s) == s
    decreases |s|
  {
    if s != [] {
      EscapeEachPlain(s[1..]);
    }
  }

  /** Text without & < > " ' is left exactly as it is. */
  lemma EscapeHtmlKeepsPlainText(s: string)
    requires forall i :: 0 <= i < |s| ==> !IsHtmlSpecial(s[i])
    ensures EscapeHtml(s) == s
  {
    EscapeHtmlPerChar(s);
    EscapeEachPlain(s);
  }

  /** Decodes the five entities escapeHtml writes, and nothing else. */
  function UnescapeHtml(s: string): string
    decreases |s|
  {
    if s == [] then []
    else if StartsWith(s, "&amp;") then "&" + UnescapeHtml(s[5..])
    else if StartsWith(s, "&lt;") then "<" + UnescapeHtml(s[4..])
    else if StartsWith(s, "&gt;") then ">" + UnescapeHtml(s[4..])
    else if StartsWith(s, "&quot;") then "\"" + UnescapeHtml(s[6..])
    else if StartsWith(s, "&#039;") then "'" + UnescapeHtml(s[6..])
    else [s[0]] + UnescapeHtml(s[1..])
  }

  /** An entity at the front decodes to its character, and decoding goes on after it. */
  lemma UnescapeEntity(e: string, c: char, t: string)
    requires (e, c) in {("&amp;", '&'), ("&lt;", '<'), ("&gt;", '>'), ("&quot;", '"'), ("&#039;", '\'')}
    ensures UnescapeHtml(e + t) == [c] + UnescapeHtml(t)
  {
    var u := e + t;
    assert u[..|e|] == e && u[|e|..] == t;
    assert u[0] == '&' && u[1] == e[1];
  }

  /** A character other than & is copied, and decoding goes on after it. */
  lemma UnescapePlain(c: char, t: string)
    requires c != '&'
    ensures UnescapeHtml([c] + t) == [c] + UnescapeHtml(t)
  {
    var u := [c] + t;
    assert u[0] == c && u[1..] == t;
  }

  lemma UnescapeChunk(c: char, t: string)
    ensures UnescapeHtml(EscapeChar(c) + t) == [c] + UnescapeHtml(t)
  {
    if c == '&' {
      UnescapeEntity("&amp;", c, t);
    } else if c == '<' {
      UnescapeEntity("&lt;", c, t);
    } else if c == '>' {
      UnescapeEntity("&gt;", c, t);
    } else if c == '"' {
      UnescapeEntity("&quot;", c, t);
    } else if c == '\'' {
      UnescapeEntity("&#039;", c, t);
    } else {
      UnescapePlain(c, t);
    }
  }

  lemma {:induction false} UnescapeEscapeEach(s: string)
    ensures UnescapeHtml(EscapeEach(s)) == s
    decreases |s|
  {
    if s != [] {
      UnescapeChunk(s[0], EscapeEach(s[1..]));
      UnescapeEscapeEach(s[1..]);
    }
  }

  /** Escaping loses nothing and never escapes twice: decoding the entities gives back
      the original text. */
  lemma EscapeHtmlRoundTrip(s: string)
    ensures UnescapeHtml(EscapeHtml(s)) == s
  {
    EscapeHtmlPerChar(s);
    UnescapeEscapeEach(s);
  }

  /** serviceBase: String(url).replace(/\/$/, "") drops one trailing slash, if any. */
  function ServiceBase(url: string): (base: string)
    ensures url == base || url == base + "/"
    ensures url == base + "/" <==> (url != [] && url[|url| - 1] == '/')
  {
    if url != [] && url[|url| - 1] == '/' then url[..|url| - 1] else url
  }

  /** api(url, path) */
  function Api(url: string, path: string): (r: string)
  {
    ServiceBase(url) + path
  }

  /** A request URL is the base URL without its trailing slash, then the path. */
  lemma ApiJoinsBaseAndPath(url: string, path: string)
    ensures url != [] && url[|url| - 1] == '/' ==> Api(url, path) == url[..|url| - 1] + path
    ensures (url == [] || url[|url| - 1] != '/') ==> Api(url, path) == url + path
    ensures Api(url, path)[|Api(url, path)| - |path|..] == path
  {
  }

  /** canCollect over the status text of a row */
  predicate CanCollect(status: string)
  {
    status == "reserved" || status == "active"
  }

  /** canReturn over the status text of a row */
  predicate CanReturn(status: string)
  {
    status == "collected" || status == "active" || status == "reserved"
  }

  /** For every known status the Collect and Return buttons are enabled exactly when the
      server would accept that transition for the row's loan. */
  lemma ButtonsMatchServer(loans: seq<Loans.Loan>, k: nat, at: string)
    requires Loans.LedgerInvariant(loans) && k < |loans|
    ensures var name := Loans.StatusName(loans[k].status);
      (CanCollect(name) <==> Loans.CollectResult(loans, loans[k].loanId, at).response.status == 200) &&
      (CanReturn(name) <==> Loans.ReturnResult(loans, loans[k].loanId, at).response.status == 200)
  {
    Loans.FindLoanByPosition(loans, k);
  }

  /** What submitting the reservation form does. */
  datatype FormAction = ShowMessage(message: string) | SendReservation(deviceId: string, studentId: string)

  const MsgEnterIds := "Please enter deviceId and studentId."

  /** The submit handler, up to the request: both inputs trimmed, and nothing sent when
      either is empty. */
  function SubmitReserveForm(deviceInput: string, studentInput: string): (a: FormAction)
    ensures a.SendReservation? <==> Trim(deviceInput) != [] && Trim(studentInput) != []
    ensures a.SendReservation? ==> a == SendReservation(Trim(deviceInput), Trim(studentInput))
    ensures a.ShowMessage? ==> a.message == MsgEnterIds
  {
    var deviceId := Trim(deviceInput);
    var studentId := Trim(studentInput);
    if deviceId == [] || studentId == [] then ShowMessage(MsgEnterIds)
    else SendReservation(deviceId, studentId)
  }

  /** A reservation the form sends never fails the server's blank-field check, since the
      server's trim leaves the already trimmed ids as they are. */
  lemma FormNeverSendsBlankIds(deviceInput: string, studentInput: string, loans: seq<Loans.Loan>,
                               locks: set<string>, now: Calendar.Date)
    requires Calendar.ValidDate(now)
    requires SubmitReserveForm(deviceInput, studentInput).SendReservation?
    ensures var a := SubmitReserveForm(deviceInput, studentInput);
      Loans.ReserveResult(loans, locks, Some(Loans.ReservationRequest(a.deviceId, a.studentId)), now)
        .response.status != 400
  {
    TrimIdempotent(deviceInput);
    TrimIdempotent(studentInput);
  }
}
