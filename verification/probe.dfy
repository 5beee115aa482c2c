/**
  What scan does with one (address, port) work item once the socket has
  answered: the stop and pause gate, the signature rules that name a camera
  make, the de-duplication against the addresses already detected, the URL
  of the device and the seven-line record appended to the results file.
  The response is an Option<string>: None when connecting, sending,
  receiving or decoding failed (scan swallows those errors).
 */
module Probe {
  import opened Optional
  import opened Text
  import opened Decimal

  /** A signature: text whose presence in an HTTP response names a camera make. */
  datatype Rule = Rule(marker: string, camera: string)

  const DahuaMarker: string := "<title>WEB SERVICE</title>"
  const DahuaLabel: string := "Anjhua-Dahua Technology Camera"
  const HikMarker: string := "login.asp"
  const HikLabel: string := "HIK Vision Camera"

  /** The signatures in the order scan tries them: the Dahua title first, then the HIK login page. */
  const Rules: seq<Rule> := [Rule(DahuaMarker, DahuaLabel), Rule(HikMarker, HikLabel)]

  /** Text every camera response must hold before any signature is tried. */
  const HttpMarker: string := "HTTP"

  /** The index of the first rule whose marker occurs in the response. */
  function FirstMatch(rules: seq<Rule>, response: string): (r: Option<nat>)
    ensures r.Some? ==> r.value < |rules| && Contains(response, rules[r.value].marker)
    ensures r.Some? ==> forall j :: 0 <= j < r.value ==> !Contains(response, rules[j].marker)
    ensures r.None? ==> forall j :: 0 <= j < |rules| ==> !Contains(response, rules[j].marker)
    decreases |rules|
  {
    if rules == [] then None
    else if Contains(response, rules[0].marker) then Some(0)
    else
      match FirstMatch(rules[1..], response)
      case None => None
      case Some(k) => Some(k + 1)
  }

  /**
    The camera make a response names: none without "HTTP"; otherwise the
    label of the first signature present.
   */
  function Classify(response: string): (r: Option<string>)
    ensures r.Some? ==> Contains(response, HttpMarker)
    ensures r == Some(DahuaLabel) <==> Contains(response, HttpMarker) && Contains(response, DahuaMarker)
    ensures r == Some(HikLabel) <==>
              Contains(response, HttpMarker) && !Contains(response, DahuaMarker) && Contains(response, HikMarker)
    ensures r.None? <==>
              !Contains(response, HttpMarker) || (!Contains(response, DahuaMarker) && !Contains(response, HikMarker))
  {
    if !Contains(response, HttpMarker) then None
    else
      assert Rules[0] == Rule(DahuaMarker, DahuaLabel) && Rules[1] == Rule(HikMarker, HikLabel);
      match FirstMatch(Rules, response)
      case None => None
      case Some(k) => Some(Rules[k].camera)
  }

  /** The device URL: "http://" and the address, followed by ":8080" only when the port is 8080. */
  function Url(ip: string, port: nat): (url: string)
    ensures port == 8080 ==> url == "http://" + ip + ":8080"
    ensures port != 8080 ==> url == "http://" + ip
  {
    PortText();
    if port == 8080 then "http://" + ip + ":" + NatToString(port) else "http://" + ip
  }

  /** str(8080) is "8080". */
  lemma PortText()
    ensures NatToString(8080) == "8080"
  {
  }

  /** Two ports give the same URL exactly when both or neither of them is 8080. */
  lemma UrlAddress(ip: string, port: nat, other: nat)
    ensures Url(ip, port) == Url(ip, other) <==> (port == 8080 <==> other == 8080)
  {
  }

  /**
    The URL reads back: after "http://", splitting on ':' gives the address
    alone, or the address and "8080", when the address holds no ':'.
   */
  lemma UrlReadBack(ip: string, port: nat)
    requires NoneOf(ip, {':'})
    ensures |"http://"| <= |Url(ip, port)| && Url(ip, port)[..|"http://"|] == "http://"
    ensures Split(Url(ip, port)[|"http://"|..], {':'}) == if port == 8080 then [ip, "8080"] else [ip]
  {
    var url := Url(ip, port);
    var rest := url[|"http://"|..];
    if port == 8080 {
      assert rest == ip + ":8080";
      assert NoneOf("8080", {':'});
      assert Join([ip, "8080"], [':']) == ip + ":" + "8080";
      assert ip + ":" + "8080" == ip + ":8080";
      SplitJoin([ip, "8080"], ':', {':'});
    } else {
      assert rest == ip;
      SplitNone(ip, {':'});
    }
  }

  /** A camera the scanner reports. */
  datatype Finding = Finding(camera: string, ip: string, port: nat, url: string, time: string)

  /** The stop and pause flags scan reads. */
  datatype Flags = Flags(stop: bool, pause: bool)

  /**
    The outcome of one scan call: it returned at once because stop was set,
    it is held by the pause, or it probed and left the detected set and
    possibly a finding.
   */
  datatype ScanResult = Aborted | Blocked | Probed(detected: set<string>, finding: Option<Finding>)

  /**
    scan after the socket read. A response naming a camera yields a finding
    exactly when its address was not detected before; the address then joins
    the detected set. The finding carries the make of the first signature
    present (Classify), so a detected address whose response holds the Dahua
    title gets nothing even when "login.asp" is present too. The time is the
    detection time, passed in.
   */
  function Scan(flags: Flags, detected: set<string>, ip: string, port: nat,
                response: Option<string>, time: string): (r: ScanResult)
    ensures flags.stop ==> r == Aborted
    ensures !flags.stop && flags.pause ==> r == Blocked
    ensures !flags.stop && !flags.pause ==> r.Probed?
    ensures r.Probed? && r.finding.None? ==> r.detected == detected
    ensures r.Probed? && ip !in detected && response.Some? && Classify(response.value).Some? ==> r.finding.Some?
    ensures r.Probed? && r.finding.Some? ==>
              && ip !in detected
              && r.detected == detected + {ip}
              && response.Some?
              && Classify(response.value) == Some(r.finding.value.camera)
              && r.finding.value == Finding(r.finding.value.camera, ip, port, Url(ip, port), time)
  {
    if flags.stop then Aborted
    else if flags.pause then Blocked
    else
      match response
      case None => Probed(detected, None)
      case Some(text) =>
        match Classify(text)
        case None => Probed(detected, None)
        case Some(camera) =>
          if ip in detected then Probed(detected, None)
          else Probed(detected + {ip}, Some(Finding(camera, ip, port, Url(ip, port), time)))
  }

  /** The bar of sixty '=' that opens and closes a record. */
  function Separator(): (s: string)
    ensures |s| == 60 && forall i :: 0 <= i < 60 ==> s[i] == '='
  {
    Repeat('=', 60)
  }

  /**
    The lines scan writes for a finding, in order: the bar, the camera type,
    address, port, URL and detection time, the bar again, and a blank line.
   */
  function RecordLines(f: Finding): (lines: seq<string>)
    ensures |lines| == 8
  {
    [ Separator(),
      "Camera Type: " + f.camera,
      "IP Address: " + f.ip,
      "Port: " + NatToString(f.port),
      "URL: " + f.url,
      "Detection Time: " + f.time,
      Separator(),
      "" ]
  }

  /** Lines each ended by a newline, as a run of file.write calls leaves them. */
  function Terminated(lines: seq<string>): string
    decreases |lines|
  {
    if lines == [] then "" else lines[0] + "\n" + Terminated(lines[1..])
  }

  /** Newline-terminated lines are the lines joined by newlines, with an empty last piece. */
  lemma {:induction false} TerminatedJoin(lines: seq<string>)
    ensures Terminated(lines) == Join(lines + [""], "\n")
    decreases |lines|
  {
    if lines != [] {
      TerminatedJoin(lines[1..]);
      assert lines + [""] == [lines[0]] + (lines[1..] + [""]);
      JoinCons(lines[0], lines[1..] + [""], "\n");
    }
  }

  /**
    The text scan appends to the results file for a finding: the record's
    lines, each ended by a newline, so that for single-line fields it splits
    on newlines into exactly those lines and one empty piece after the last.
   */
  function Record(f: Finding): (text: string)
    ensures SingleLine(f) ==> Split(text, {'\n'}) == RecordLines(f) + [""]
  {
    RecordSplits(f);
    Terminated(RecordLines(f))
  }

  lemma RecordSplits(f: Finding)
    ensures SingleLine(f) ==> Split(Terminated(RecordLines(f)), {'\n'}) == RecordLines(f) + [""]
  {
    if SingleLine(f) {
      TerminatedJoin(RecordLines(f));
      RecordLinesSingle(f);
      SplitJoin(RecordLines(f) + [""], '\n', {'\n'});
    }
  }

  /** The text after a fixed label, when the line starts with it. */
  function After(prefix: string, line: string): (r: Option<string>)
    ensures r.Some? ==> line == prefix + r.value
    ensures r.None? ==> forall rest :: line != prefix + rest
  {
    if |prefix| <= |line| && line[..|prefix|] == prefix then
      assert line == prefix + line[|prefix|..];
      Some(line[|prefix|..])
    else
      None
  }

  /** Reads one record back: the inverse of Record on findings whose text fields hold no newline. */
  function ParseRecord(text: string): (r: Option<Finding>)
  {
    var lines := Split(text, {'\n'});
    if |lines| != 9 || lines[0] != Separator() || lines[6] != Separator() || lines[7] != "" || lines[8] != "" then None
    else
      match (After("Camera Type: ", lines[1]), After("IP Address: ", lines[2]), After("Port: ", lines[3]),
             After("URL: ", lines[4]), After("Detection Time: ", lines[5]))
      case (Some(camera), Some(ip), Some(portText), Some(url), Some(time)) =>
        (match ParseInt(portText)
         case Some(port) => if port >= 0 then Some(Finding(camera, ip, port, url, time)) else None
         case None => None)
      case _ => None
  }

  /** A finding's text fields fit on one line each. */
  predicate SingleLine(f: Finding)
  {
    NoneOf(f.camera, {'\n'}) && NoneOf(f.ip, {'\n'}) && NoneOf(f.url, {'\n'}) && NoneOf(f.time, {'\n'})
  }

  /** No line of a record of single-line fields holds a newline. */
  lemma RecordLinesSingle(f: Finding)
    requires SingleLine(f)
    ensures forall i :: 0 <= i < |RecordLines(f) + [""]| ==> NoneOf((RecordLines(f) + [""])[i], {'\n'})
  {
  }

  /** Reading a record back gives the finding it was written from. */
  lemma ParseRecordRoundTrip(f: Finding)
    requires SingleLine(f)
    ensures ParseRecord(Record(f)) == Some(f)
  {
    ParseRecordLines(f, Record(f));
  }

  /** ParseRecord reads a finding back from any text that splits into that finding's record lines. */
  lemma ParseRecordLines(f: Finding, text: string)
    requires Split(text, {'\n'}) == RecordLines(f) + [""]
    ensures ParseRecord(text) == Some(f)
  {
    var ls := Split(text, {'\n'});
    assert |ls| == 9 && ls[0] == Separator() && ls[6] == Separator() && ls[7] == "" && ls[8] == "";
    AfterPrefix("Camera Type: ", f.camera);
    assert After("Camera Type: ", ls[1]) == Some(f.camera);
    AfterPrefix("IP Address: ", f.ip);
    assert After("IP Address: ", ls[2]) == Some(f.ip);
    AfterPrefix("Port: ", NatToString(f.port));
    assert After("Port: ", ls[3]) == Some(NatToString(f.port));
    AfterPrefix("URL: ", f.url);
    assert After("URL: ", ls[4]) == Some(f.url);
    AfterPrefix("Detection Time: ", f.time);
    assert After("Detection Time: ", ls[5]) == Some(f.time);
    ParseIntNat(f.port);
  }

  lemma AfterPrefix(prefix: string, rest: string)
    ensures After(prefix, prefix + rest) == Some(rest)
  {
  }

}
