/**
 Public-IP selection (`get_public_ip`). The HTTP requests are replaced by the
 responses they produced: one pass is the ordered list of (service, response)
 pairs, and the retry decorator's three attempts are three such passes.
 */
module PublicIp {
  import opened Wrappers
  import opened Text
  import opened IpFormat

  /** The lookup services, in the order they are tried. */
  const IpServices: seq<string> := [
    "https://api.ipify.org?format=json",
    "https://ipinfo.io/json",
    "https://ifconfig.me/ip"
  ]

  /** `stop_max_attempt_number` of the retry decorator on `get_public_ip`. */
  const MaxAttempts: nat := 3

  /** The `"ip"` member of a decoded JSON object. */
  datatype IpField = Missing | IpString(s: string) | NotAString

  /** What `response.json()` gives. */
  datatype Json =
    | Undecodable        // `response.json()` raises a decoding error, itself a `RequestException`
    | Object(ip: IpField)
    | NotAnObject        // a list, number, ... : `.get` raises `AttributeError`

  /** What `requests.get(service_url, timeout=5)` gives: an exception or a response with both views of its body. */
  datatype Response = RequestFailed | Body(text: string, json: Json)

  datatype Probe = Probe(url: string, response: Response)

  /** What the loop body makes of one response before validation. */
  datatype Extraction =
    | Candidate(value: string)
    | Skipped                  // a `RequestException` was caught and logged
    | Raised                   // an exception the loop does not catch

  /** What the loop body does with one response after validation. */
  datatype Verdict = Accept(ip: string) | Reject | Crash

  /** Outcome of one pass over the services. */
  datatype PassOutcome =
    | Found(ip: string)
    | Exhausted          // `raise Exception("Failed to fetch public IP ...")`
    | Aborted            // an uncaught exception left the loop early

  /** `"ipify" in service_url or "ipinfo" in service_url`: the service answers in JSON. */
  predicate UsesJson(url: string) {
    Contains(url, "ipify") || Contains(url, "ipinfo")
  }

  /**
   The candidate address in one response, read the way a service of the
   given kind is read: the JSON `"ip"` field (default `""`) or the text
   body, stripped.
   */
  function Read(asJson: bool, response: Response): (e: Extraction)
    ensures e.Candidate? ==> IsStripped(e.value)
    ensures e.Candidate? ==> response.Body?
    ensures e.Skipped? <==> response.RequestFailed? || (response.Body? && asJson && response.json.Undecodable?)
    ensures e.Raised? <==> response.Body? && asJson && Raises(response.json)
    ensures response.Body? && !asJson ==> e == Candidate(Strip(response.text))
    ensures response.Body? && asJson && response.json == Object(Missing) ==> e == Candidate("")
  {
    match response
    case RequestFailed => Skipped
    case Body(text, json) =>
      if asJson then
        match json
        case Undecodable => Skipped
        case NotAnObject => Raised
        case Object(Missing) => Candidate(Strip(""))
        case Object(NotAString) => Raised
        case Object(IpString(s)) => Candidate(Strip(s))
      else Candidate(Strip(text))
  }

  /** `.get("ip", "")` raises on a JSON value that is not an object; `.strip()` on an `"ip"` that is not a string. */
  predicate Raises(json: Json) {
    json.NotAnObject? || json == Object(NotAString)
  }

  /** The candidate address in one service's response. */
  function Extract(url: string, response: Response): (e: Extraction)
    ensures e.Candidate? ==> IsStripped(e.value)
    ensures e.Candidate? ==> response.Body?
    ensures e.Skipped? <==> response.RequestFailed? || (response.Body? && UsesJson(url) && response.json.Undecodable?)
    ensures e.Raised? <==> response.Body? && UsesJson(url) && Raises(response.json)
    ensures response.Body? && !UsesJson(url) ==> e == Candidate(Strip(response.text))
    ensures response.Body? && UsesJson(url) && response.json == Object(Missing) ==> e == Candidate("")
  {
    Read(UsesJson(url), response)
  }

  /** The verdict on one response read as JSON or as text. */
  function JudgeRead(asJson: bool, response: Response): (v: Verdict)
    ensures v.Accept? ==> IsValidIp(v.ip) && IsStripped(v.ip)
    ensures v.Accept? <==> Read(asJson, response).Candidate? && IsValidIp(Read(asJson, response).value)
    ensures v.Accept? ==> v.ip == Read(asJson, response).value
    ensures v.Crash? <==> Read(asJson, response).Raised?
  {
    match Read(asJson, response)
    case Candidate(ip) => if IsValidIp(ip) then Accept(ip) else Reject
    case Skipped => Reject
    case Raised => Crash
  }

  /** The verdict on one service: its response read the way its URL selects. */
  function Judge(p: Probe): (v: Verdict)
    ensures v.Accept? ==> IsValidIp(v.ip) && IsStripped(v.ip)
    ensures v.Accept? <==> Extract(p.url, p.response).Candidate? && IsValidIp(Extract(p.url, p.response).value)
    ensures v.Accept? ==> v.ip == Extract(p.url, p.response).value
    ensures v.Crash? <==> Extract(p.url, p.response).Raised?
  {
    JudgeRead(UsesJson(p.url), p.response)
  }

  /** Pass outcome once a verdict other than `Reject` has ended the pass. */
  function Decided(v: Verdict): PassOutcome
    requires !v.Reject?
  {
    if v.Accept? then Found(v.ip) else Aborted
  }

  /** Every verdict in `vs` passes over its service. */
  predicate AllRejected(vs: seq<Verdict>) {
    forall i :: 0 <= i < |vs| ==> vs[i].Reject?
  }

  /** Verdict `i` is the first one that is not `Reject`, and it gives outcome `r`. */
  predicate DecidedAt(vs: seq<Verdict>, i: int, r: PassOutcome) {
    && 0 <= i < |vs|
    && AllRejected(vs[..i])
    && !vs[i].Reject?
    && r == Decided(vs[i])
  }

  /** The loop of one pass over the services' verdicts, in order: the first that does not pass over them decides. */
  function FirstDecision(vs: seq<Verdict>): (r: PassOutcome)
    ensures r.Exhausted? <==> AllRejected(vs)
    ensures !r.Exhausted? ==> exists i :: DecidedAt(vs, i, r)
  {
    if |vs| == 0 then Exhausted
    else if vs[0].Reject? then
      var r := FirstDecision(vs[1..]);
      DecisionShifts(vs, r);
      r
    else
      assert DecidedAt(vs, 0, Decided(vs[0]));
      Decided(vs[0])
  }

  /** A decision reached on `vs[1..]` is the same decision on `vs` when `vs[0]` passed over its service. */
  lemma DecisionShifts(vs: seq<Verdict>, r: PassOutcome)
    requires |vs| > 0 && vs[0].Reject?
    requires r.Exhausted? <==> AllRejected(vs[1..])
    requires !r.Exhausted? ==> exists i :: DecidedAt(vs[1..], i, r)
    ensures r.Exhausted? <==> AllRejected(vs)
    ensures !r.Exhausted? ==> exists i :: DecidedAt(vs, i, r)
  {
    assert vs == [vs[0]] + vs[1..];
    if !r.Exhausted? {
      var i :| DecidedAt(vs[1..], i, r);
      assert vs[..i + 1] == [vs[0]] + vs[1..][..i];
      assert DecidedAt(vs, i + 1, r);
    }
  }

  /** Once a prefix has decided the pass, later verdicts are never looked at. */
  lemma {:induction false} DecidedPrefix(a: seq<Verdict>, b: seq<Verdict>)
    requires !FirstDecision(a).Exhausted?
    ensures FirstDecision(a + b) == FirstDecision(a)
  {
    assert (a + b)[0] == a[0];
    if a[0].Reject? {
      assert (a + b)[1..] == a[1..] + b;
      DecidedPrefix(a[1..], b);
    }
  }

  /** A prefix of verdicts that all pass over their services leaves the decision to the rest. */
  lemma {:induction false} RejectedPrefix(a: seq<Verdict>, b: seq<Verdict>)
    requires FirstDecision(a).Exhausted?
    ensures FirstDecision(a + b) == FirstDecision(b)
  {
    if |a| == 0 {
      assert a + b == b;
    } else {
      assert (a + b)[0] == a[0];
      assert (a + b)[1..] == a[1..] + b;
      RejectedPrefix(a[1..], b);
    }
  }

  /** The verdicts of the services in a pass, in order. */
  function Verdicts(probes: seq<Probe>): (vs: seq<Verdict>)
    ensures |vs| == |probes|
    ensures forall i :: 0 <= i < |vs| ==> vs[i] == Judge(probes[i])
  {
    if |probes| == 0 then []
    else
      var vs := [Judge(probes[0])] + Verdicts(probes[1..]);
      assert forall i :: 1 <= i < |vs| ==> vs[i] == Verdicts(probes[1..])[i - 1];
      vs
  }

  /**
   One pass of `get_public_ip`'s loop: the services are tried in order and the
   first whose candidate is a valid address wins; a failed request or invalid
   candidate moves on; an uncaught exception ends the pass.
   */
  function SelectIp(probes: seq<Probe>): (r: PassOutcome)
    ensures r.Found? ==> IsValidIp(r.ip) && IsStripped(r.ip)
    ensures r.Exhausted? <==> forall i :: 0 <= i < |probes| ==> Judge(probes[i]).Reject?
    ensures !r.Exhausted? ==> exists i :: DecidedAt(Verdicts(probes), i, r)
  {
    var vs := Verdicts(probes);
    FirstDecision(vs)
  }

  lemma {:induction false} VerdictsAppend(a: seq<Probe>, b: seq<Probe>)
    ensures Verdicts(a + b) == Verdicts(a) + Verdicts(b)
  {
    if |a| == 0 {
      assert a + b == b;
    } else {
      assert (a + b)[0] == a[0];
      assert (a + b)[1..] == a[1..] + b;
      VerdictsAppend(a[1..], b);
    }
  }

  /** Once a prefix of the services has decided the pass, later services are not consulted. */
  lemma LaterServicesIgnored(a: seq<Probe>, b: seq<Probe>)
    requires !SelectIp(a).Exhausted?
    ensures SelectIp(a + b) == SelectIp(a)
  {
    VerdictsAppend(a, b);
    DecidedPrefix(Verdicts(a), Verdicts(b));
  }

  /** Services that are all passed over make no difference: the pass continues as if they were absent. */
  lemma FailedServicesSkipped(a: seq<Probe>, b: seq<Probe>)
    requires SelectIp(a).Exhausted?
    ensures SelectIp(a + b) == SelectIp(b)
  {
    VerdictsAppend(a, b);
    RejectedPrefix(Verdicts(a), Verdicts(b));
  }

  /** One attempt's responses, one per entry of `IP_SERVICES`. */
  datatype ServiceResponses = ServiceResponses(ipify: Response, ipinfo: Response, ifconfig: Response)

  /** The probes of one attempt: the services in list order, each with its response. */
  function ProbeServices(r: ServiceResponses): (probes: seq<Probe>)
    ensures |probes| == |IpServices|
    ensures probes[0].response == r.ipify && probes[1].response == r.ipinfo && probes[2].response == r.ifconfig
  {
    [Probe(IpServices[0], r.ipify), Probe(IpServices[1], r.ipinfo), Probe(IpServices[2], r.ifconfig)]
  }

  /** In every attempt the first two services are read as JSON and the third as text. */
  lemma ServicesReadAsListed(r: ServiceResponses)
    ensures var probes := ProbeServices(r);
      Extract(probes[0].url, r.ipify) == Read(true, r.ipify) &&
      Extract(probes[1].url, r.ipinfo) == Read(true, r.ipinfo) &&
      Extract(probes[2].url, r.ifconfig) == Read(false, r.ifconfig)
  {
    JsonServices();
    TextService();
  }

  /** The first two services are read as JSON ... */
  lemma JsonServices()
    ensures UsesJson(IpServices[0]) && UsesJson(IpServices[1])
  {
    var s0: string, s1: string := "https://api.ipify.org?format=json", "https://ipinfo.io/json";
    assert s0[12..17] == "ipify";
    assert OccursAt(s0, "ipify", 12);
    assert s1[8..14] == "ipinfo";
    assert OccursAt(s1, "ipinfo", 8);
  }

  /** ... and the third as plain text. */
  lemma TextService()
    ensures !UsesJson(IpServices[2])
  {
    IfconfigIsText(IpServices[2]);
  }

  /** The URL has no `y`, so no `ipify`, and never a `p` followed by an `i`, so no `ipinfo`. */
  lemma IfconfigIsText(s: string)
    requires s == "https://ifconfig.me/ip"
    ensures !Contains(s, "ipify") && !Contains(s, "ipinfo")
  {
    NoY(s);
    NotContainedMissingChar(s, "ipify", 4);
    NoPI(s);
    NotContainedMissingPair(s, "ipinfo", 1);
  }

  lemma NoY(s: string)
    requires s == "https://ifconfig.me/ip"
    ensures 'y' !in s
  {
  }

  lemma NoPI(s: string)
    requires s == "https://ifconfig.me/ip"
    ensures forall i :: 0 <= i < |s| - 1 ==> !(s[i] == 'p' && s[i + 1] == 'i')
  {
  }

  /** `t` cannot occur in `s` when one of its characters does not. */
  lemma NotContainedMissingChar(s: string, t: string, k: nat)
    requires k < |t| && t[k] !in s
    ensures !Contains(s, t)
  {
    forall i | 0 <= i <= |s| - |t| ensures !OccursAt(s, t, i) {
      assert s[i..i + |t|][k] == s[i + k];
    }
  }

  /** `t` cannot occur in `s` when two of its adjacent characters never appear side by side in `s`. */
  lemma NotContainedMissingPair(s: string, t: string, k: nat)
    requires k + 1 < |t|
    requires forall i :: 0 <= i < |s| - 1 ==> !(s[i] == t[k] && s[i + 1] == t[k + 1])
    ensures !Contains(s, t)
  {
    forall i | 0 <= i <= |s| - |t| ensures !OccursAt(s, t, i) {
      assert s[i..i + |t|][k] == s[i + k] && s[i..i + |t|][k + 1] == s[i + k + 1];
    }
  }

  /** Attempt `k` is the first whose pass found an address, and that address is `ip`. */
  predicate FoundAt(outcomes: seq<PassOutcome>, k: int, ip: string) {
    && 0 <= k < |outcomes|
    && outcomes[k] == Found(ip)
    && forall j :: 0 <= j < k ==> !outcomes[j].Found?
  }

  /** The retry loop over the outcomes of successive passes: stop at the first that found an address. */
  function Retry(outcomes: seq<PassOutcome>): (r: Result<string, PassOutcome>)
    requires |outcomes| >= 1
    ensures r.Success? ==> exists k :: FoundAt(outcomes, k, r.value)
    ensures r.Failure? ==> (forall k :: 0 <= k < |outcomes| ==> !outcomes[k].Found?)
    ensures r.Failure? ==> r.error == outcomes[|outcomes| - 1]
  {
    if outcomes[0].Found? then
      assert FoundAt(outcomes, 0, outcomes[0].ip);
      Success(outcomes[0].ip)
    else if |outcomes| == 1 then Failure(outcomes[0])
    else
      var r := Retry(outcomes[1..]);
      RetryShifts(outcomes, r);
      r
  }

  /** A result reached from the later attempts is the result of all attempts when the first found nothing. */
  lemma RetryShifts(outcomes: seq<PassOutcome>, r: Result<string, PassOutcome>)
    requires |outcomes| > 1 && !outcomes[0].Found?
    requires r.Success? ==> exists k :: FoundAt(outcomes[1..], k, r.value)
    requires r.Failure? ==> forall k :: 0 <= k < |outcomes[1..]| ==> !outcomes[1..][k].Found?
    ensures r.Success? ==> exists k :: FoundAt(outcomes, k, r.value)
    ensures r.Failure? ==> forall k :: 0 <= k < |outcomes| ==> !outcomes[k].Found?
  {
    assert outcomes == [outcomes[0]] + outcomes[1..];
    if r.Success? {
      var k :| FoundAt(outcomes[1..], k, r.value);
      assert FoundAt(outcomes, k + 1, r.value);
    }
  }

  /** The outcome of each attempt's pass, in order. */
  function Attempts(passes: seq<seq<Probe>>): (outcomes: seq<PassOutcome>)
    ensures |outcomes| == |passes|
    ensures forall k :: 0 <= k < |passes| ==> outcomes[k] == SelectIp(passes[k])
  {
    seq(|passes|, k requires 0 <= k < |passes| => SelectIp(passes[k]))
  }

  /**
   `get_public_ip` under the retry decorator: passes are run until one finds
   an address; when all `MaxAttempts` fail, the last pass's failure is raised.
   */
  function Resolve(passes: seq<seq<Probe>>): (r: Result<string, PassOutcome>)
    requires |passes| == MaxAttempts
    ensures r.Success? ==> IsValidIp(r.value) && IsStripped(r.value)
    ensures r.Success? ==> exists k :: FoundAt(Attempts(passes), k, r.value)
    ensures r.Failure? <==> forall k :: 0 <= k < |passes| ==> !SelectIp(passes[k]).Found?
    ensures r.Failure? ==> r.error == SelectIp(passes[MaxAttempts - 1])
  {
    Retry(Attempts(passes))
  }

  /** The probes of each attempt, in order. */
  function ProbeAttempts(attempts: seq<ServiceResponses>): (passes: seq<seq<Probe>>)
    ensures |passes| == |attempts|
    ensures forall k :: 0 <= k < |attempts| ==> passes[k] == ProbeServices(attempts[k])
  {
    seq(|attempts|, k requires 0 <= k < |attempts| => ProbeServices(attempts[k]))
  }

  /**
   The outcome of one attempt from its three responses: ipify and ipinfo
   read as JSON, then ifconfig.me read as text, the first that is not
   passed over deciding.
   */
  function AttemptOutcome(a: ServiceResponses): (o: PassOutcome)
    ensures o.Found? ==> IsValidIp(o.ip) && IsStripped(o.ip)
    ensures o.Exhausted? <==>
      JudgeRead(true, a.ipify).Reject? && JudgeRead(true, a.ipinfo).Reject? && JudgeRead(false, a.ifconfig).Reject?
    ensures JudgeRead(true, a.ipify).Accept? ==> o == Found(JudgeRead(true, a.ipify).ip)
  {
    var vs := [JudgeRead(true, a.ipify), JudgeRead(true, a.ipinfo), JudgeRead(false, a.ifconfig)];
    var o := FirstDecision(vs);
    assert AllRejected(vs) <==> vs[0].Reject? && vs[1].Reject? && vs[2].Reject?;
    o
  }

  /** Probing the services in list order decides an attempt as `AttemptOutcome` says. */
  lemma AttemptProbesServices(a: ServiceResponses)
    ensures SelectIp(ProbeServices(a)) == AttemptOutcome(a)
  {
    var probes := ProbeServices(a);
    JsonServices();
    TextService();
    ThreeVerdicts(probes);
    assert Verdicts(probes) == [JudgeRead(true, a.ipify), JudgeRead(true, a.ipinfo), JudgeRead(false, a.ifconfig)];
  }

  lemma ThreeVerdicts(probes: seq<Probe>)
    requires |probes| == 3
    ensures Verdicts(probes) == [Judge(probes[0]), Judge(probes[1]), Judge(probes[2])]
  {
  }

  /** The outcome of each attempt, in order. */
  function Outcomes(attempts: seq<ServiceResponses>): (outcomes: seq<PassOutcome>)
    ensures |outcomes| == |attempts|
    ensures forall k :: 0 <= k < |attempts| ==> outcomes[k] == AttemptOutcome(attempts[k])
  {
    seq(|attempts|, k requires 0 <= k < |attempts| => AttemptOutcome(attempts[k]))
  }

  /**
   `get_public_ip` with its retry: an address is valid, stripped and found
   by some attempt, every earlier attempt finding none; the call fails
   exactly when no attempt found one, with the last attempt's outcome.
   */
  function GetPublicIp(attempts: seq<ServiceResponses>): (r: Result<string, PassOutcome>)
    requires |attempts| == MaxAttempts
    ensures r.Success? ==> IsValidIp(r.value) && IsStripped(r.value)
    ensures r.Success? ==> exists k :: FoundAt(Outcomes(attempts), k, r.value)
    ensures r.Failure? <==> forall k :: 0 <= k < |attempts| ==> !AttemptOutcome(attempts[k]).Found?
    ensures r.Failure? ==> r.error == AttemptOutcome(attempts[MaxAttempts - 1])
  {
    Retry(Outcomes(attempts))
  }

  /** `GetPublicIp` is the retry over the attempts' probes of the services in list order. */
  lemma GetPublicIpProbes(attempts: seq<ServiceResponses>)
    requires |attempts| == MaxAttempts
    ensures GetPublicIp(attempts) == Resolve(ProbeAttempts(attempts))
  {
    var passes := ProbeAttempts(attempts);
    forall k | 0 <= k < |attempts| ensures Attempts(passes)[k] == Outcomes(attempts)[k] {
      AttemptProbesServices(attempts[k]);
    }
    assert Attempts(passes) == Outcomes(attempts);
  }

  /** A service that cannot be reached is masked by a later service that answers with a valid address. */
  lemma FallbackAfterFailure(failing: string, url: string, ip: string, json: Json)
    requires !UsesJson(url)
    requires IsValidIp(ip) && IsStripped(ip)
    ensures SelectIp([Probe(failing, RequestFailed), Probe(url, Body(ip, json))]) == Found(ip)
  {
    var ps := [Probe(failing, RequestFailed), Probe(url, Body(ip, json))];
    FailedRequestRejected(ps[0]);
    PassedOver(ps);
    assert ps[1..] == [ps[1]];
    ValidTextAccepted(url, ip, json);
    AcceptedFirst(ps[1..]);
  }

  /** A service whose request fails, whose JSON cannot be decoded, or whose candidate is not a valid address is passed over. */
  lemma NothingUsablePassedOver(p: Probe)
    requires !Usable(p)
    ensures Judge(p) == Reject
  {
  }

  /** The service yields an address that would be accepted, or an exception that ends the pass. */
  predicate Usable(p: Probe) {
    var e := Extract(p.url, p.response);
    e.Raised? || (e.Candidate? && IsValidIp(e.value))
  }

  /** A pass in which no service yields a valid candidate or an uncaught exception runs out of services. */
  lemma NothingUsableExhausted(probes: seq<Probe>)
    requires forall i :: 0 <= i < |probes| ==> !Usable(probes[i])
    ensures SelectIp(probes) == Exhausted
  {
    forall i | 0 <= i < |probes| ensures Judge(probes[i]).Reject? {
      NothingUsablePassedOver(probes[i]);
    }
  }

  /** A text service answering something that is not an address is masked by a later text service with a valid one. */
  lemma FallbackAfterInvalid(url1: string, bad: string, json1: Json, url2: string, ip: string, json2: Json)
    requires !UsesJson(url1) && !IsValidIp(Strip(bad))
    requires !UsesJson(url2) && IsValidIp(ip) && IsStripped(ip)
    ensures SelectIp([Probe(url1, Body(bad, json1)), Probe(url2, Body(ip, json2))]) == Found(ip)
  {
    var ps := [Probe(url1, Body(bad, json1)), Probe(url2, Body(ip, json2))];
    NothingUsablePassedOver(ps[0]);
    PassedOver(ps);
    assert ps[1..] == [ps[1]];
    ValidTextAccepted(url2, ip, json2);
    AcceptedFirst(ps[1..]);
  }

  lemma FailedRequestRejected(p: Probe)
    requires p.response.RequestFailed?
    ensures Judge(p) == Reject
  {
  }

  /** A plain-text service whose body is a valid, unpadded address is accepted with that address. */
  lemma ValidTextAccepted(url: string, ip: string, json: Json)
    requires !UsesJson(url)
    requires IsValidIp(ip) && IsStripped(ip)
    ensures Judge(Probe(url, Body(ip, json))) == Accept(ip)
  {
    StripStripped(ip);
    TextBodyRead(url, ip, json);
    ValidCandidateAccepted(url, Body(ip, json), ip);
  }

  /** A plain-text service's candidate is its stripped body. */
  lemma TextBodyRead(url: string, text: string, json: Json)
    requires !UsesJson(url)
    ensures Extract(url, Body(text, json)) == Candidate(Strip(text))
  {
  }

  /** A JSON service's candidate is its stripped `"ip"` string. */
  lemma JsonFieldRead(url: string, text: string, ip: string)
    requires UsesJson(url)
    ensures Extract(url, Body(text, Object(IpString(ip)))) == Candidate(Strip(ip))
  {
  }

  lemma ValidCandidateAccepted(url: string, response: Response, ip: string)
    requires Extract(url, response) == Candidate(ip) && IsValidIp(ip)
    ensures Judge(Probe(url, response)) == Accept(ip)
  {
  }

  /** A first service whose verdict is `Reject` leaves the pass to the rest. */
  lemma PassedOver(probes: seq<Probe>)
    requires |probes| > 0 && Judge(probes[0]).Reject?
    ensures SelectIp(probes) == SelectIp(probes[1..])
  {
    var vs := Verdicts(probes);
    assert Verdicts(probes[1..]) == vs[1..];
  }

  /** A first service that accepts settles the pass with its address. */
  lemma AcceptedFirst(probes: seq<Probe>)
    requires |probes| > 0 && Judge(probes[0]).Accept?
    ensures SelectIp(probes) == Found(Judge(probes[0]).ip)
  {
  }

  /** A string with no whitespace margins is its own strip. */
  lemma StripStripped(s: string)
    requires IsStripped(s)
    ensures Strip(s) == s
  {
    if |s| > 0 {
      assert [] + s + [] == s;
      StripUnique([], s, []);
    }
  }

  /** As in `test_successful_fetch`: when ipify first answers `{"ip": "123.45.67.89"}`, that address is returned. */
  lemma FirstJsonServiceWins(attempts: seq<ServiceResponses>, text: string)
    requires |attempts| == MaxAttempts
    requires attempts[0].ipify == Body(text, Object(IpString("123.45.67.89")))
    ensures GetPublicIp(attempts) == Success("123.45.67.89")
  {
    TestAddressValid("123.45.67.89");
    FirstAnswerReturned(attempts, text, "123.45.67.89");
  }

  /** A valid, unpadded `"ip"` from ipify on the first attempt is what `get_public_ip` returns. */
  lemma FirstAnswerReturned(attempts: seq<ServiceResponses>, text: string, ip: string)
    requires |attempts| == MaxAttempts
    requires attempts[0].ipify == Body(text, Object(IpString(ip)))
    requires IsValidIp(ip) && IsStripped(ip)
    ensures GetPublicIp(attempts) == Success(ip)
  {
    FirstJsonFound(attempts[0], text, ip);
    var outcomes := Outcomes(attempts);
    assert outcomes[0] == Found(ip);
    assert Retry(outcomes) == Success(ip);
  }

  /** An attempt whose ipify response holds a valid, unpadded `"ip"` finds that address. */
  lemma FirstJsonFound(a: ServiceResponses, text: string, ip: string)
    requires a.ipify == Body(text, Object(IpString(ip)))
    requires IsValidIp(ip) && IsStripped(ip)
    ensures AttemptOutcome(a) == Found(ip)
  {
    JsonReadAccepted(a.ipify, text, ip);
  }

  /** A JSON body whose `"ip"` is a valid, unpadded address is accepted with that address. */
  lemma JsonReadAccepted(response: Response, text: string, ip: string)
    requires response == Body(text, Object(IpString(ip)))
    requires IsValidIp(ip) && IsStripped(ip)
    ensures JudgeRead(true, response) == Accept(ip)
  {
    assert Read(true, response) == Candidate(Strip(ip));
    StripStripped(ip);
  }

  /** A first service read as JSON whose `"ip"` is a valid, unpadded address settles the pass with it. */
  lemma JsonServiceAnswer(probes: seq<Probe>, text: string, ip: string)
    requires |probes| > 0 && UsesJson(probes[0].url)
    requires probes[0].response == Body(text, Object(IpString(ip)))
    requires IsValidIp(ip) && IsStripped(ip)
    ensures SelectIp(probes) == Found(ip)
  {
    var p := Probe(probes[0].url, Body(text, Object(IpString(ip))));
    assert probes[0] == p;
    ValidJsonAccepted(p.url, text, ip);
    AcceptedFirst(probes);
  }

  /** A JSON service whose `"ip"` is a valid, unpadded address is accepted with that address. */
  lemma ValidJsonAccepted(url: string, text: string, ip: string)
    requires UsesJson(url)
    requires IsValidIp(ip) && IsStripped(ip)
    ensures Judge(Probe(url, Body(text, Object(IpString(ip))))) == Accept(ip)
  {
    StripStripped(ip);
    JsonFieldRead(url, text, ip);
    ValidCandidateAccepted(url, Body(text, Object(IpString(ip))), ip);
  }

  lemma TestAddressValid(ip: string)
    requires ip == "123.45.67.89"
    ensures IsValidIp(ip) && IsStripped(ip)
  {
    AcceptedExample(ip, "123", "45", "67", "89", "");
  }

  /** When every request fails on every attempt, `get_public_ip` raises and returns no address. */
  lemma AllRequestsFail(attempts: seq<ServiceResponses>)
    requires |attempts| == MaxAttempts
    requires forall k :: 0 <= k < |attempts| ==> AllFailed(attempts[k])
    ensures GetPublicIp(attempts) == Failure(Exhausted)
  {
    forall k | 0 <= k < |attempts| ensures AttemptOutcome(attempts[k]).Exhausted? {
      FailedAttemptExhausted(attempts[k]);
    }
    var r := GetPublicIp(attempts);
    assert r.Failure? && r.error.Exhausted?;
  }

  /** Every request of the attempt failed. */
  predicate AllFailed(a: ServiceResponses) {
    a.ipify.RequestFailed? && a.ipinfo.RequestFailed? && a.ifconfig.RequestFailed?
  }

  lemma FailedAttemptExhausted(a: ServiceResponses)
    requires AllFailed(a)
    ensures AttemptOutcome(a).Exhausted?
  {
    assert Read(true, a.ipify) == Read(true, a.ipinfo) == Read(false, a.ifconfig) == Skipped;
  }
}
