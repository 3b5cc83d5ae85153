/** The client object: its configuration, `initialize`, and the text line
    an exception is posted as, whose fingerprint is the Base64 encoding of
    the exception's name followed by its first stack frame. */
module Errplane {
  import opened Wrappers
  import opened Utf8
  import Base64

  /** A text literal as JavaScript code units. */
  function Units(s: string): (r: JsString)
    ensures |r| == |s|
  {
    seq(|s|, i requires 0 <= i < |s| => (s[i] as int) % 0x10000)
  }

  /** `x || d` for a string that may be missing: the empty string and a
      missing value both give `d`. */
  function OrDefault(x: Option<string>, d: string): (r: string)
    ensures x.Some? && x.value != "" ==> r == x.value
    ensures x.None? || x.value == "" ==> r == d
  {
    if x.Some? && x.value != "" then x.value else d
  }

  /** `backtrace[0]` concatenated to a string: "undefined" when there is no frame. */
  function FirstFrame(backtrace: seq<JsString>): JsString
  {
    if |backtrace| > 0 then backtrace[0] else Units("undefined")
  }

  /** The fingerprint: `Base64.encode(exception.name + backtrace[0])`. */
  function Fingerprint(name: JsString, backtrace: seq<JsString>): JsString
  {
    Base64.Encoded(name + FirstFrame(backtrace))
  }

  const Prefix: JsString := Units("exceptions/")
  const Suffix: JsString := Units(" 1 now")

  /** The line an exception is posted as: one occurrence, stamped "now". */
  function ExceptionBody(name: JsString, backtrace: seq<JsString>): JsString
  {
    Prefix + Fingerprint(name, backtrace) + Suffix
  }

  /** The body is the prefix, the fingerprint and the suffix; the fingerprint
      is a well-formed Base64 text that decodes back to the name and the
      first frame whenever those hold no CR LF pair. */
  lemma ExceptionBodyShape(name: JsString, backtrace: seq<JsString>)
    ensures var body := ExceptionBody(name, backtrace);
      |body| == |Prefix| + |Fingerprint(name, backtrace)| + |Suffix|
      && body[..|Prefix|] == Prefix
      && body[|body| - |Suffix|..] == Suffix
      && body[|Prefix|..|body| - |Suffix|] == Fingerprint(name, backtrace)
    ensures |Fingerprint(name, backtrace)| % 4 == 0
    ensures Base64.AllKeyChars(Fingerprint(name, backtrace))
    ensures !ContainsCrlf(name + FirstFrame(backtrace)) ==>
      Base64.Decoded(Fingerprint(name, backtrace)) == name + FirstFrame(backtrace)
  {
    var text := name + FirstFrame(backtrace);
    FingerprintShape(text);
    if !ContainsCrlf(text) {
      Base64.RoundTrip(text);
    }
    ThreeParts(Prefix, Fingerprint(name, backtrace), Suffix);
  }

  lemma FingerprintShape(text: JsString)
    ensures |Base64.Encoded(text)| % 4 == 0
    ensures Base64.AllKeyChars(Base64.Encoded(text))
  {
    Base64.EncodedShape(text);
    MultipleOfFour(|Utf8.Encoded(text)|);
  }

  lemma MultipleOfFour(m: nat)
    ensures (4 * ((m + 2) / 3)) % 4 == 0
  {
  }

  lemma ThreeParts(a: JsString, b: JsString, c: JsString)
    ensures var s := a + b + c;
      |s| == |a| + |b| + |c|
      && s[..|a|] == a && s[|s| - |c|..] == c && s[|a|..|s| - |c|] == b
  {
    var s := a + b + c;
    assert s[..|a|] == a;
    assert s[|s| - |c|..] == c;
    assert s[|a|..|s| - |c|] == b;
  }

  /** For one exception name, different first frames give different
      fingerprints, as long as neither text holds a CR LF pair. */
  lemma FingerprintsSeparateFrames(name: JsString, backtrace1: seq<JsString>, backtrace2: seq<JsString>)
    requires !ContainsCrlf(name + FirstFrame(backtrace1))
    requires !ContainsCrlf(name + FirstFrame(backtrace2))
    ensures Fingerprint(name, backtrace1) == Fingerprint(name, backtrace2)
      <==> FirstFrame(backtrace1) == FirstFrame(backtrace2)
  {
    var t1 := name + FirstFrame(backtrace1);
    var t2 := name + FirstFrame(backtrace2);
    Base64.RoundTrip(t1);
    Base64.RoundTrip(t2);
    if Fingerprint(name, backtrace1) == Fingerprint(name, backtrace2) {
      assert t1 == t2;
      assert t1[|name|..] == FirstFrame(backtrace1);
      assert t2[|name|..] == FirstFrame(backtrace2);
    }
  }

  /** The encoder folds CR LF into LF first, so a frame ending in CR LF and
      the same frame ending in LF share a fingerprint. */
  lemma CrlfFramesCollide()
    ensures var name := Units("E");
      FirstFrame([[CR, LF]]) != FirstFrame([[LF]])
      && Fingerprint(name, [[CR, LF]]) == Fingerprint(name, [[LF]])
  {
    var name := Units("E");
    assert name == [69];
    assert name + [CR, LF] == [69, CR, LF];
    assert name + [LF] == [69, LF];
    assert CrlfToLf([CR, LF]) == [LF] + CrlfToLf([]);
    assert CrlfToLf([69, CR, LF]) == [69] + CrlfToLf([CR, LF]);
    assert CrlfToLf([69, LF]) == [69] + CrlfToLf([LF]);
    assert CrlfToLf([LF]) == [LF] + CrlfToLf([]);
  }

  class Errplane {
    var apiKey: Option<string>
    var host: string
    var environment: string
    var applicationKey: Option<string>
    var projectRoot: Option<string>
    var appVersion: Option<string>
    /** Milliseconds. */
    var timeout: nat
    var apiHost: string

    /** `new Errplane()`, with the `NODE_ENV` variable and the host name
        the process would read passed in. */
    constructor (nodeEnv: Option<string>, hostname: string)
      ensures apiKey == None && applicationKey == None
      ensures projectRoot == None && appVersion == None
      ensures host == "http://" + hostname
      ensures environment == OrDefault(nodeEnv, "development")
      ensures timeout == 30000
      ensures apiHost == "apiv2.errplane.com"
    {
      apiKey := None;
      host := "http://" + hostname;
      environment := OrDefault(nodeEnv, "development");
      applicationKey := None;
      projectRoot := None;
      appVersion := None;
      timeout := 30 * 1000;
      apiHost := "apiv2.errplane.com";
    }

    /** `Errplane.initialize`: a fresh client carrying the two keys; a
        missing or empty environment keeps the constructor's default. */
    static method Initialize(apiKey: Option<string>, applicationKey: Option<string>, environment: Option<string>,
                             nodeEnv: Option<string>, hostname: string)
      returns (instance: Errplane)
      ensures fresh(instance)
      ensures instance.apiKey == apiKey && instance.applicationKey == applicationKey
      ensures environment.Some? && environment.value != "" ==> instance.environment == environment.value
      ensures environment.None? || environment.value == "" ==> instance.environment == OrDefault(nodeEnv, "development")
      ensures instance.host == "http://" + hostname && instance.timeout == 30000
      ensures instance.projectRoot == None && instance.appVersion == None
      ensures instance.apiHost == "apiv2.errplane.com"
    {
      instance := new Errplane(nodeEnv, hostname);
      instance.apiKey := apiKey;
      instance.applicationKey := applicationKey;
      instance.environment := OrDefault(environment, instance.environment);
    }

    /** The body `postException` sends for an exception with this name and
        these formatted stack frames. */
    method PostException(name: JsString, backtrace: seq<JsString>) returns (body: JsString)
      ensures body == ExceptionBody(name, backtrace)
    {
      var frame := if |backtrace| > 0 then backtrace[0] else Units("undefined");
      var hash := Base64.Encode(name + frame);
      body := Units("exceptions/") + hash + Units(" 1 now");
    }
  }
}
