/** The self-contained logic of the DUO configuration check page
    (`DuoTester` in index.php): masking a configured secret for display,
    formatting a caught exception, and assembling the report that the page
    lists. The Duo SDK, the JWT library and the host's configuration and
    session are outside the model; what they produce is passed in. */
module DuoTester {
  import opened Php

  /** The mask character. It is one character here; in the source it is the
      UTF-8 string of three bytes, so for an ASCII secret the source's output
      is longer in bytes than the secret while it has the secret's length in
      characters. For a secret with multibyte characters PHP counts bytes, so
      its counts differ from the model's. */
  const Bullet: char := '•'

  // ---------------------------------------------------------------------
  // maskString
  // ---------------------------------------------------------------------

  /** `maskString($secret, $showStart, $showEnd)`: the first `showStart` and
      last `showEnd` characters kept, each one between them replaced by
      `Bullet`. The arguments are any integers, as in the source; the count
      of bullets is `|secret| - showStart - showEnd`, and when that is
      negative `str_repeat` throws. */
  function MaskString(secret: string, showStart: int, showEnd: int): (r: Result<string>)
    ensures r.Ok? <==> showStart + showEnd <= |secret|
    ensures r.Err? ==> r.error == StrRepeatTimesError
  {
    var totalSymbols := |secret| - showStart - showEnd;
    var start := if showStart > 0 then Substr(secret, 0, showStart) else "";
    var end := if showEnd > 0 then Substr(secret, -showEnd, showEnd) else "";
    match StrRepeat(Bullet, totalSymbols)
    case Ok(middle) => Ok(start + middle + end)
    case Err(e) => Err(e)
  }

  /** The display form of a secret, defined position by position: a
      character is shown when it is among the first `showStart` or the last
      `showEnd`, and is `Bullet` otherwise. */
  function Redacted(secret: string, showStart: nat, showEnd: nat): (r: string)
    requires showStart + showEnd <= |secret|
  {
    seq(|secret|, i requires 0 <= i < |secret| =>
      if showStart <= i < |secret| - showEnd then Bullet else secret[i])
  }

  /** With non-negative counts that fit, the result is the prefix, the
      bullets and the suffix, one after the other. */
  lemma MaskStringShape(secret: string, showStart: nat, showEnd: nat)
    requires showStart + showEnd <= |secret|
    ensures MaskString(secret, showStart, showEnd)
      == Ok(secret[..showStart] + Repeat(Bullet, |secret| - showStart - showEnd) + secret[|secret| - showEnd..])
  {
    if showStart > 0 {
      SubstrFromStart(secret, showStart);
    }
    if showEnd > 0 {
      SubstrLast(secret, showEnd);
    } else {
      assert secret[|secret| - showEnd..] == [];
    }
  }

  /** The masked secret agrees with the position-by-position definition. */
  lemma MaskStringRedacts(secret: string, showStart: nat, showEnd: nat)
    requires showStart + showEnd <= |secret|
    ensures MaskString(secret, showStart, showEnd) == Ok(Redacted(secret, showStart, showEnd))
  {
    MaskStringShape(secret, showStart, showEnd);
    var hidden := |secret| - showStart - showEnd;
    var r := secret[..showStart] + Repeat(Bullet, hidden) + secret[|secret| - showEnd..];
    var d := Redacted(secret, showStart, showEnd);
    assert |r| == |d|;
    forall i | 0 <= i < |r|
      ensures r[i] == d[i]
    {
      if i < showStart {
        assert r[i] == secret[i];
      } else if i < showStart + hidden {
        assert r[i] == Repeat(Bullet, hidden)[i - showStart];
      } else {
        assert r[i] == secret[|secret| - showEnd..][i - showStart - hidden];
      }
    }
    assert r == d;
  }

  /** The masked secret has as many characters as the secret. */
  lemma MaskStringLength(secret: string, showStart: nat, showEnd: nat)
    requires showStart + showEnd <= |secret|
    ensures MaskString(secret, showStart, showEnd).Ok?
    ensures |MaskString(secret, showStart, showEnd).value| == |secret|
  {
    MaskStringRedacts(secret, showStart, showEnd);
  }

  /** The first `showStart` characters are shown as they are. */
  lemma MaskStringKeepsPrefix(secret: string, showStart: nat, showEnd: nat)
    requires showStart + showEnd <= |secret|
    ensures MaskString(secret, showStart, showEnd).Ok?
    ensures MaskString(secret, showStart, showEnd).value[..showStart] == secret[..showStart]
  {
    MaskStringShape(secret, showStart, showEnd);
    var r := MaskString(secret, showStart, showEnd).value;
    assert r[..showStart] == secret[..showStart];
  }

  /** The last `showEnd` characters are shown as they are. */
  lemma MaskStringKeepsSuffix(secret: string, showStart: nat, showEnd: nat)
    requires showStart + showEnd <= |secret|
    ensures MaskString(secret, showStart, showEnd).Ok?
    ensures var r := MaskString(secret, showStart, showEnd).value;
      |r| == |secret| && r[|r| - showEnd..] == secret[|secret| - showEnd..]
  {
    MaskStringShape(secret, showStart, showEnd);
    var r := MaskString(secret, showStart, showEnd).value;
    var suffix := secret[|secret| - showEnd..];
    assert r == (secret[..showStart] + Repeat(Bullet, |secret| - showStart - showEnd)) + suffix;
    assert r[|r| - showEnd..] == suffix;
  }

  /** Every character between the shown prefix and suffix is a bullet. */
  lemma MaskStringHidesMiddle(secret: string, showStart: nat, showEnd: nat)
    requires showStart + showEnd <= |secret|
    ensures MaskString(secret, showStart, showEnd).Ok?
    ensures var r := MaskString(secret, showStart, showEnd).value;
      |r| == |secret| && forall i :: showStart <= i < |secret| - showEnd ==> r[i] == Bullet
  {
    MaskStringRedacts(secret, showStart, showEnd);
  }

  /** At most `showStart + showEnd` characters of the secret are revealed:
      two secrets of one length that agree on the first `showStart` and the
      last `showEnd` characters are masked alike, whatever lies between
      them, and whether or not the counts fit. */
  lemma MaskStringRevealsOnlyEnds(s: string, t: string, showStart: nat, showEnd: nat)
    requires |s| == |t|
    requires showStart + showEnd <= |s| ==> s[..showStart] == t[..showStart]
    requires showStart + showEnd <= |s| ==> s[|s| - showEnd..] == t[|t| - showEnd..]
    ensures MaskString(s, showStart, showEnd) == MaskString(t, showStart, showEnd)
  {
    if showStart + showEnd <= |s| {
      MaskStringShape(s, showStart, showEnd);
      MaskStringShape(t, showStart, showEnd);
    }
  }

  /** With the default counts nothing is revealed: every character becomes a
      bullet, and the empty secret becomes the empty string. */
  lemma {:induction false} MaskStringDefault(secret: string)
    ensures MaskString(secret, 0, 0) == Ok(Repeat(Bullet, |secret|))
    ensures secret == [] ==> MaskString(secret, 0, 0) == Ok([])
  {
    var m := Repeat(Bullet, |secret|);
    assert "" + m + "" == m;
    assert |m| == 0 ==> m == [];
  }

  /** A count that is zero or negative shows nothing from its end, and a
      negative one adds its magnitude to the number of bullets, so the
      result is then longer than the secret. */
  lemma MaskStringNonPositiveCounts(secret: string, showStart: int, showEnd: int)
    requires showStart <= 0 && showEnd <= 0
    ensures MaskString(secret, showStart, showEnd).Ok?
    ensures var r := MaskString(secret, showStart, showEnd).value;
      |r| == |secret| - showStart - showEnd && forall i :: 0 <= i < |r| ==> r[i] == Bullet
  {
  }

  /** The page masks both configured keys with three characters shown at
      each end: that succeeds exactly for a key of six characters or more. */
  lemma MaskKeyFailsIff(key: string)
    ensures MaskString(key, 3, 3).Err? <==> |key| < 6
  {
  }

  /** The eight-character example: two bullets between the shown ends. */
  lemma MaskStringExample()
    ensures MaskString("12345678", 3, 3) == Ok("123••678")
  {
    var s := "12345678";
    MaskStringShape(s, 3, 3);
    assert s[..3] == "123" && s[5..] == "678";
    assert Repeat(Bullet, 2) == [Bullet, Bullet];
    assert "123" + [Bullet, Bullet] + "678" == "123••678";
  }

  // ---------------------------------------------------------------------
  // printError
  // ---------------------------------------------------------------------

  /** `printError($th)`: the message, a space, and the code in parentheses. */
  function PrintError(th: Throwable): (text: string)
  {
    th.message + " (" + IntToString(th.code) + ")"
  }

  /** The text is laid out as message, " (", the decimal code, ")". */
  lemma PrintErrorLayout(th: Throwable)
    ensures var r := PrintError(th); var m := |th.message|;
      |r| > m + 3 && r[..m] == th.message && r[m..m + 2] == " (" && r[|r| - 1] == ')'
      && ParseInt(r[m + 2..|r| - 1]) == Some(th.code)
  {
    var r := PrintError(th);
    var m := |th.message|;
    var c := IntToString(th.code);
    assert r == th.message + " (" + c + ")";
    assert r[..m] == th.message;
    assert r[m..m + 2] == " (";
    assert r[m + 2..|r| - 1] == c;
    IntRoundTrip(th.code);
  }

  predicate IsCodeChar(c: char) { c == '-' || IsDigit(c) }

  /** How many characters at the end of `s` can belong to a printed code. */
  function CodeSuffixLength(s: string): (n: nat)
    ensures n <= |s|
  {
    if |s| > 0 && IsCodeChar(s[|s| - 1]) then CodeSuffixLength(s[..|s| - 1]) + 1 else 0
  }

  /** Recovers the exception from the text `printError` made of it, reading
      the code from the end; `None` for a text of another shape. */
  function ParseError(text: string): (th: Option<Throwable>)
  {
    if |text| == 0 || text[|text| - 1] != ')' then None
    else
      var body := text[..|text| - 1];
      var head := body[..|body| - CodeSuffixLength(body)];
      var code := body[|body| - CodeSuffixLength(body)..];
      if |head| < 2 || head[|head| - 2..] != " (" then None
      else match ParseInt(code)
        case None => None
        case Some(c) => Some(Throwable(head[..|head| - 2], c))
  }

  lemma {:induction false} CodeSuffixOfAppend(p: string, c: string)
    requires |p| > 0 && !IsCodeChar(p[|p| - 1])
    requires forall i :: 0 <= i < |c| ==> IsCodeChar(c[i])
    ensures CodeSuffixLength(p + c) == |c|
  {
    if c == [] {
      assert p + c == p;
    } else {
      var s := p + c;
      assert s[..|s| - 1] == p + c[..|c| - 1];
      CodeSuffixOfAppend(p, c[..|c| - 1]);
    }
  }

  /** `printError` loses nothing: message and code are both recovered. */
  lemma PrintErrorRoundTrip(th: Throwable)
    ensures ParseError(PrintError(th)) == Some(th)
  {
    var text := PrintError(th);
    var c := IntToString(th.code);
    var p := th.message + " (";
    var body := text[..|text| - 1];
    assert body == p + c;
    assert forall i :: 0 <= i < |c| ==> IsCodeChar(c[i]);
    CodeSuffixOfAppend(p, c);
    assert body[..|body| - |c|] == p;
    assert body[|body| - |c|..] == c;
    assert p[|p| - 2..] == " (";
    assert p[..|p| - 2] == th.message;
    IntRoundTrip(th.code);
  }

  // ---------------------------------------------------------------------
  // The report of run
  // ---------------------------------------------------------------------

  /** The configured values `run` reads. */
  datatype Config = Config(integrationKey: string, secretKey: string, hostname: string)

  /** How `JWT::decode` ended inside `decodeJWT`: with the decoded claims, or
      with an exception that `decodeJWT` caught. */
  datatype Decoding<C> = Decoded(claims: C) | Threw(th: Throwable)

  /** A value of the report: a string, or the decoded claims. */
  datatype Value<C> = Text(text: string) | Claims(claims: C)

  /** `decodeJWT`: the claims, or the caught exception as `printError` text. */
  function DecodeJwt<C>(d: Decoding<C>): (v: Value<C>)
    ensures d.Decoded? ==> v == Claims(d.claims)
    ensures d.Threw? ==> v == Text(PrintError(d.th))
    ensures d.Threw? ==> ParseError(v.text) == Some(d.th)
  {
    match d
    case Decoded(c) =>
      Claims(c)
    case Threw(th) =>
      PrintErrorRoundTrip(th);
      Text(PrintError(th))
  }

  /** The report as an ordered list of key and value. */
  type Report<C> = seq<(string, Value<C>)>

  /** The keys of the report, in the order the page lists them. */
  const ReportKeys: seq<string> :=
    ["duo integration key", "duo secret key", "duo hostname", "username", "state", "prompt URI", "JWT payload"]

  function Keys<C>(report: Report<C>): (keys: seq<string>)
    ensures |keys| == |report|
  {
    seq(|report|, i requires 0 <= i < |report| => report[i].0)
  }

  /** The value of the first entry with key `key`; the report's keys are
      distinct, so it is the one value stored under that key. */
  function Lookup<C>(report: Report<C>, key: string): (v: Option<Value<C>>)
  {
    if report == [] then None
    else if report[0].0 == key then Some(report[0].1)
    else Lookup(report[1..], key)
  }

  lemma {:induction false} LookupAt<C>(report: Report<C>, i: nat)
    requires i < |report|
    requires forall j :: 0 <= j < i ==> report[j].0 != report[i].0
    ensures Lookup(report, report[i].0) == Some(report[i].1)
  {
    if i > 0 {
      LookupAt(report[1..], i - 1);
    }
  }

  /** The `$data` array built at the end of `run`. The URL, the state, the
      user name and the decoding come from the Duo SDK, the host session and
      the JWT library. The entries are evaluated in order, so the first key
      too short to mask decides what is thrown. */
  function RunReport<C>(config: Config, username: string, state: string, promptUri: string,
                        decoding: Decoding<C>): (r: Result<Report<C>>)
    ensures r.Ok? <==> |config.integrationKey| >= 6 && |config.secretKey| >= 6
    ensures r.Err? ==> r.error == StrRepeatTimesError
  {
    match MaskString(config.integrationKey, 3, 3)
    case Err(e) => Err(e)
    case Ok(maskedIntegrationKey) =>
      match MaskString(config.secretKey, 3, 3)
      case Err(e) => Err(e)
      case Ok(maskedSecretKey) =>
        Ok(Entries(maskedIntegrationKey, maskedSecretKey, config.hostname, username, state,
                   promptUri, DecodeJwt(decoding)))
  }

  /** The array literal of `run`, given its seven values. */
  function Entries<C>(integrationKey: string, secretKey: string, hostname: string, username: string,
                      state: string, promptUri: string, payload: Value<C>): (report: Report<C>)
  {
    [ ("duo integration key", Text(integrationKey)),
      ("duo secret key", Text(secretKey)),
      ("duo hostname", Text(hostname)),
      ("username", Text(username)),
      ("state", Text(state)),
      ("prompt URI", Text(promptUri)),
      ("JWT payload", payload) ]
  }

  /** No key of the report is repeated, so none overwrites another. */
  lemma ReportKeysDistinct()
    ensures forall i, j :: 0 <= i < j < |ReportKeys| ==> ReportKeys[i] != ReportKeys[j]
  {
    forall i, j | 0 <= i < j < |ReportKeys|
      ensures ReportKeys[i] != ReportKeys[j]
    {
      assert |ReportKeys[i]| != |ReportKeys[j]|;
    }
  }

  /** In a report with distinct keys, each key finds its own value. */
  lemma LookupDistinct<C>(report: Report<C>)
    requires forall i, j :: 0 <= i < j < |report| ==> report[i].0 != report[j].0
    ensures forall i :: 0 <= i < |report| ==> Lookup(report, report[i].0) == Some(report[i].1)
  {
    forall i | 0 <= i < |report|
      ensures Lookup(report, report[i].0) == Some(report[i].1)
    {
      LookupAt(report, i);
    }
  }

  /** The literal has the seven keys in order, and each finds its own value. */
  lemma EntriesLayout<C>(integrationKey: string, secretKey: string, hostname: string, username: string,
                         state: string, promptUri: string, payload: Value<C>)
    ensures var r := Entries(integrationKey, secretKey, hostname, username, state, promptUri, payload);
      Keys(r) == ReportKeys
      && forall k :: 0 <= k < |ReportKeys| ==> Lookup(r, ReportKeys[k]) == Some(r[k].1)
  {
    var r := Entries(integrationKey, secretKey, hostname, username, state, promptUri, payload);
    assert Keys(r) == ReportKeys;
    ReportKeysDistinct();
    LookupDistinct(r);
  }

  /** The report has the seven keys, distinct and in order; each key looks up
      the value beside it, and that value is what `run` stores under it. */
  lemma RunReportLayout<C>(config: Config, username: string, state: string, promptUri: string,
                           decoding: Decoding<C>)
    requires |config.integrationKey| >= 6 && |config.secretKey| >= 6
    ensures RunReport(config, username, state, promptUri, decoding).Ok?
    ensures var r := RunReport(config, username, state, promptUri, decoding).value;
      Keys(r) == ReportKeys
      && (forall i, j :: 0 <= i < j < |r| ==> r[i].0 != r[j].0)
      && forall k :: 0 <= k < |ReportKeys| ==> Lookup(r, ReportKeys[k]) == Some(r[k].1)
    ensures var r := RunReport(config, username, state, promptUri, decoding).value;
      r[0].1 == Text(MaskString(config.integrationKey, 3, 3).value)
      && r[1].1 == Text(MaskString(config.secretKey, 3, 3).value)
      && r[2].1 == Text(config.hostname) && r[3].1 == Text(username)
      && r[4].1 == Text(state) && r[5].1 == Text(promptUri)
      && r[6].1 == DecodeJwt(decoding)
  {
    EntriesLayout(MaskString(config.integrationKey, 3, 3).value, MaskString(config.secretKey, 3, 3).value,
                  config.hostname, username, state, promptUri, DecodeJwt(decoding));
    ReportKeysDistinct();
  }

  /** The two keys appear in the report as `maskString(·, 3, 3)` of
      themselves. For one prompt URI and one decoding outcome, the two masked
      entries reveal only the keys' lengths and three characters at each
      end: configurations that agree on those give the same report. The URI
      and the decoding are made from the keys outside this model, so this
      says nothing about what those two entries reveal. */
  lemma RunReportRevealsOnlyKeyEnds<C>(c1: Config, c2: Config, username: string, state: string,
                                       promptUri: string, decoding: Decoding<C>)
    requires c1.hostname == c2.hostname
    requires |c1.integrationKey| == |c2.integrationKey| && |c1.secretKey| == |c2.secretKey|
    requires |c1.integrationKey| >= 6 ==>
      c1.integrationKey[..3] == c2.integrationKey[..3]
      && c1.integrationKey[|c1.integrationKey| - 3..] == c2.integrationKey[|c2.integrationKey| - 3..]
    requires |c1.secretKey| >= 6 ==>
      c1.secretKey[..3] == c2.secretKey[..3]
      && c1.secretKey[|c1.secretKey| - 3..] == c2.secretKey[|c2.secretKey| - 3..]
    ensures RunReport(c1, username, state, promptUri, decoding)
      == RunReport(c2, username, state, promptUri, decoding)
  {
    MaskStringRevealsOnlyEnds(c1.integrationKey, c2.integrationKey, 3, 3);
    MaskStringRevealsOnlyEnds(c1.secretKey, c2.secretKey, 3, 3);
  }
}
