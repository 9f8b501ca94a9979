/** Redaction of audit metadata and authorisation of write requests. */
module EnterpriseReadiness {
  import opened Common
  import opened Json
  import Text

  // ---------------------------------------------------------------- sensitive names

  const MARKERS: seq<string> := ["access_key", "account_number", "api_key", "authorization", "client_email", "cookie",
                                 "password", "private_key", "secret", "session", "ssn", "token"]

  predicate IsJoiner(c: char) {
    c == '-' || c == '_'
  }

  /** `s` without the characters that join words. */
  function Compact(s: string): string {
    if s == [] then [] else (if IsJoiner(s[0]) then [] else [s[0]]) + Compact(s[1..])
  }

  function Normalized(key: string): string {
    Text.Replace(Text.Lower(Text.Strip(key)), '-', '_')
  }

  /** `_is_sensitive_field_name`. A normalised name has no dash, so removing underscores is compacting it. */
  predicate IsSensitive(key: string) {
    exists i :: 0 <= i < |MARKERS| &&
      (Text.Contains(Normalized(key), MARKERS[i]) || Text.Contains(Compact(Normalized(key)), Compact(MARKERS[i])))
  }

  lemma {:induction false} CompactSum(a: string, b: string)
    ensures Compact(a + b) == Compact(a) + Compact(b)
  {
    if a == [] {
      assert a + b == b;
    } else {
      assert (a + b)[1..] == a[1..] + b;
      CompactSum(a[1..], b);
    }
  }

  /** The first test is implied by the second. */
  lemma ContainsCompact(s: string, part: string)
    requires Text.Contains(s, part)
    ensures Text.Contains(Compact(s), Compact(part))
  {
    var i :| 0 <= i <= |s| && Text.OccursAt(s, part, i);
    assert s == s[..i] + part + s[i + |part|..];
    CompactSum(s[..i] + part, s[i + |part|..]);
    CompactSum(s[..i], part);
    var k := |Compact(s[..i])|;
    assert Compact(s)[k..k + |Compact(part)|] == Compact(part);
    assert Text.OccursAt(Compact(s), Compact(part), k);
  }

  /** A name without case and joiners. */
  function Essence(key: string): string {
    Compact(Text.Lower(key))
  }

  predicate AllSpace(s: string) {
    forall i :: 0 <= i < |s| ==> Text.IsSpace(s[i])
  }

  predicate NoSpace(s: string) {
    forall i :: 0 <= i < |s| ==> !Text.IsSpace(s[i])
  }

  lemma {:induction false} StripParts(s: string) returns (before: string, after: string)
    ensures s == before + Text.Strip(s) + after && AllSpace(before) && AllSpace(after)
  {
    before := StripLeftPart(s);
    after := StripRightPart(Text.StripLeft(s));
  }

  lemma {:induction false} StripLeftPart(s: string) returns (before: string)
    ensures s == before + Text.StripLeft(s) && AllSpace(before)
  {
    if s != [] && Text.IsSpace(s[0]) {
      var rest := StripLeftPart(s[1..]);
      before := [s[0]] + rest;
      assert Text.StripLeft(s) == Text.StripLeft(s[1..]);
      assert s == [s[0]] + s[1..];
    } else {
      before := [];
    }
  }

  lemma {:induction false} StripRightPart(s: string) returns (after: string)
    ensures s == Text.StripRight(s) + after && AllSpace(after)
  {
    if s != [] && Text.IsSpace(s[|s| - 1]) {
      var rest := StripRightPart(s[..|s| - 1]);
      after := rest + [s[|s| - 1]];
      assert s == s[..|s| - 1] + [s[|s| - 1]];
    } else {
      after := [];
    }
  }

  lemma CompactSpace(s: string)
    requires AllSpace(s)
    ensures Compact(Text.Lower(s)) == s
  {
    forall i | 0 <= i < |s| ensures Text.LowerChar(s[i]) == s[i] {
      assert Text.IsSpace(s[i]);
    }
    assert Text.Lower(s) == s;
    NothingToJoin(s);
  }

  lemma {:induction false} NothingToJoin(s: string)
    requires AllSpace(s)
    ensures Compact(s) == s
  {
    if s != [] {
      assert Text.IsSpace(s[0]) && s == [s[0]] + s[1..];
      NothingToJoin(s[1..]);
    }
  }

  /** Dashes become underscores before both are removed, so replacing them first changes nothing. */
  lemma {:induction false} CompactReplaced(s: string)
    ensures Compact(Text.Replace(s, '-', '_')) == Compact(s)
  {
    if s != [] {
      CompactReplaced(s[1..]);
      assert Text.Replace(s, '-', '_')[1..] == Text.Replace(s[1..], '-', '_');
    }
  }

  lemma LowerSum(a: string, b: string)
    ensures Text.Lower(a + b) == Text.Lower(a) + Text.Lower(b)
  {
  }

  /** White space around a text does not matter to a marker without white space. */
  lemma ContainsIgnoresPadding(before: string, s: string, after: string, part: string)
    requires AllSpace(before) && AllSpace(after) && NoSpace(part) && part != ""
    ensures Text.Contains(before + s + after, part) <==> Text.Contains(s, part)
  {
    var padded := before + s + after;
    if Text.Contains(s, part) {
      var i :| 0 <= i <= |s| && Text.OccursAt(s, part, i);
      assert padded[|before| + i..|before| + i + |part|] == s[i..i + |part|];
      assert Text.OccursAt(padded, part, |before| + i);
    }
    if Text.Contains(padded, part) {
      var i :| 0 <= i <= |padded| && Text.OccursAt(padded, part, i);
      var n := |part|;
      assert padded[i] == padded[i..i + n][0] == part[0] && padded[i + n - 1] == padded[i..i + n][n - 1] == part[n - 1];
      assert s[i - |before|..i - |before| + n] == padded[i..i + n];
      assert Text.OccursAt(s, part, i - |before|);
    }
  }

  predicate PlainMarker(m: string) {
    m != "" && !IsJoiner(m[0]) && NoSpace(m)
  }

  lemma KeyMarkersPlain()
    ensures PlainMarker("access_key") && PlainMarker("account_number") && PlainMarker("api_key")
    ensures PlainMarker("authorization")
  {
  }

  lemma ClientMarkersPlain()
    ensures PlainMarker("client_email") && PlainMarker("cookie") && PlainMarker("password")
    ensures PlainMarker("private_key")
  {
  }

  lemma SecretMarkersPlain()
    ensures PlainMarker("secret") && PlainMarker("session") && PlainMarker("ssn") && PlainMarker("token")
  {
  }

  lemma {:induction false} CompactNoSpace(s: string)
    requires NoSpace(s)
    ensures NoSpace(Compact(s)) && (s != [] && !IsJoiner(s[0]) ==> Compact(s) != "")
  {
    if s != [] {
      CompactNoSpace(s[1..]);
    }
  }

  lemma MarkersPlain()
    ensures forall i :: 0 <= i < |MARKERS| ==> NoSpace(Compact(MARKERS[i])) && Compact(MARKERS[i]) != ""
  {
    hide PlainMarker;
    KeyMarkersPlain();
    ClientMarkersPlain();
    SecretMarkersPlain();
    forall i | 0 <= i < |MARKERS|
      ensures NoSpace(Compact(MARKERS[i])) && Compact(MARKERS[i]) != ""
    {
      assert PlainMarker(MARKERS[i]);
      PlainMarkerCompact(MARKERS[i]);
    }
  }

  lemma PlainMarkerCompact(m: string)
    requires PlainMarker(m)
    ensures NoSpace(Compact(m)) && Compact(m) != ""
  {
    CompactNoSpace(m);
  }

  /** A name is sensitive exactly when its essence contains a compact marker. */
  lemma SensitiveByEssence(key: string)
    ensures IsSensitive(key) <==> exists i :: 0 <= i < |MARKERS| && Text.Contains(Essence(key), Compact(MARKERS[i]))
  {
    hide Text.Strip, Text.Contains, Compact;
    MarkersPlain();
    var before, after := StripParts(key);
    var core := Text.Strip(key);
    LowerSum(before + core, after);
    LowerSum(before, core);
    CompactSum(Text.Lower(before) + Text.Lower(core), Text.Lower(after));
    CompactSum(Text.Lower(before), Text.Lower(core));
    CompactSpace(before);
    CompactSpace(after);
    CompactReplaced(Text.Lower(core));
    assert Essence(key) == before + Compact(Normalized(key)) + after;
    forall i | 0 <= i < |MARKERS|
      ensures Text.Contains(Essence(key), Compact(MARKERS[i])) <==>
              Text.Contains(Normalized(key), MARKERS[i]) || Text.Contains(Compact(Normalized(key)), Compact(MARKERS[i]))
    {
      if Text.Contains(Normalized(key), MARKERS[i]) {
        ContainsCompact(Normalized(key), MARKERS[i]);
      }
      ContainsIgnoresPadding(before, Compact(Normalized(key)), after, Compact(MARKERS[i]));
    }
  }

  /** Case and any placement of dashes and underscores do not matter. */
  lemma SensitiveIgnoresSpelling(a: string, b: string)
    requires Essence(a) == Essence(b)
    ensures IsSensitive(a) <==> IsSensitive(b)
  {
    SensitiveByEssence(a);
    SensitiveByEssence(b);
  }

  // ---------------------------------------------------------------- redaction

  const REDACTED := "***REDACTED***"

  /** `redact_sensitive`. */
  function Redact(v: Value): Value {
    match v
    case Obj(entries) => Obj(RedactEntries(entries))
    case Arr(items) => Arr(RedactItems(items))
    case _ => v
  }

  function RedactEntries(entries: seq<Entry<Value>>): (r: seq<Entry<Value>>)
    ensures |r| == |entries|
    ensures forall i :: 0 <= i < |r| ==> r[i].key == entries[i].key
    ensures forall i :: 0 <= i < |r| ==> r[i].value == if IsSensitive(entries[i].key) then Str(REDACTED)
        else Redact(entries[i].value)
  {
    if entries == [] then []
    else
      var e := entries[0];
      assert e == Entry(e.key, e.value);
      [Entry(e.key, if IsSensitive(e.key) then Str(REDACTED) else Redact(e.value))] + RedactEntries(entries[1..])
  }

  function RedactItems(items: seq<Value>): (r: seq<Value>)
    ensures |r| == |items| && forall i :: 0 <= i < |r| ==> r[i] == Redact(items[i])
  {
    if items == [] then [] else [Redact(items[0])] + RedactItems(items[1..])
  }

  /** One step down: the position of an entry or an item. */
  function Child(v: Value, i: nat): Option<Value> {
    if v.Obj? && i < |v.entries| then Some(v.entries[i].value)
    else if v.Arr? && i < |v.items| then Some(v.items[i])
    else None
  }

  function ValueAt(v: Value, path: seq<nat>): Option<Value>
    decreases |path|
  {
    if path == [] then Some(v)
    else if Child(v, path[0]).None? then None
    else ValueAt(Child(v, path[0]).value, path[1..])
  }

  /** The path goes through a value under a sensitive name. */
  predicate ThroughSensitive(v: Value, path: seq<nat>)
    decreases |path|
  {
    path != [] && Child(v, path[0]).Some? &&
    ((v.Obj? && IsSensitive(v.entries[path[0]].key)) || ThroughSensitive(Child(v, path[0]).value, path[1..]))
  }

  /** What redaction does at every depth: values reached without a sensitive name are only redacted inside, so texts,
      numbers and keys stay, and nothing else is left below a sensitive name. */
  lemma {:induction false} RedactionAt(v: Value, path: seq<nat>)
    ensures !ThroughSensitive(v, path) ==>
              ValueAt(Redact(v), path) == (if ValueAt(v, path).None? then None
                  else Some(Redact(ValueAt(v, path).value)))
    ensures ThroughSensitive(v, path) ==>
              ValueAt(Redact(v), path) == None || ValueAt(Redact(v), path) == Some(Str(REDACTED))
    decreases |path|
  {
    hide IsSensitive;
    if path != [] && Child(v, path[0]).Some? {
      RedactionAt(Child(v, path[0]).value, path[1..]);
      if v.Obj? && IsSensitive(v.entries[path[0]].key) {
        assert Child(Redact(v), path[0]) == Some(Str(REDACTED));
        assert path[1..] != [] ==> Child(Str(REDACTED), path[1..][0]).None?;
      }
    }
  }

  lemma {:induction false} RedactIdempotent(v: Value)
    ensures Redact(Redact(v)) == Redact(v)
  {
    hide IsSensitive;
    match v
    case Obj(entries) =>
      forall i | 0 <= i < |entries|
        ensures RedactEntries(RedactEntries(entries))[i] == RedactEntries(entries)[i]
      {
        assert entries[i] == Entry(entries[i].key, entries[i].value);
        RedactIdempotent(entries[i].value);
      }
      assert RedactEntries(RedactEntries(entries)) == RedactEntries(entries);
    case Arr(items) =>
      forall i | 0 <= i < |items|
        ensures RedactItems(RedactItems(items))[i] == RedactItems(items)[i]
      {
        RedactIdempotent(items[i]);
      }
      assert RedactItems(RedactItems(items)) == RedactItems(items);
    case _ =>
  }

  // ---------------------------------------------------------------- path rules

  /** `str.split(separator)`. */
  function Split(s: string, separator: char): (parts: seq<string>)
    ensures parts != []
  {
    if s == [] then [""]
    else if s[0] == separator then [""] + Split(s[1..], separator)
    else var rest := Split(s[1..], separator); [[s[0]] + rest[0]] + rest[1..]
  }

  function Joined(parts: seq<string>, separator: char): string
    requires parts != []
  {
    if |parts| == 1 then parts[0] else parts[0] + [separator] + Joined(parts[1..], separator)
  }

  function DropTrailingSlashes(s: string): string {
    if s != [] && s[|s| - 1] == '/' then DropTrailingSlashes(s[..|s| - 1]) else s
  }

  /** `_path_matches_capability_rule`. */
  predicate PathMatches(request: string, rule: string) {
    var normalizedRule, normalizedRequest := DropTrailingSlashes(rule), DropTrailingSlashes(request);
    normalizedRequest == normalizedRule || normalizedRule + "/" <= normalizedRequest
  }

  lemma {:induction false} SplitJoined(s: string, separator: char)
    ensures Joined(Split(s, separator), separator) == s
  {
    if s != [] {
      SplitJoined(s[1..], separator);
      var rest := Split(s[1..], separator);
      var parts := Split(s, separator);
      if s[0] == separator {
        assert parts[1..] == rest;
        assert parts[0] == "";
      } else if |rest| > 1 {
        assert parts[1..] == rest[1..];
      }
    }
  }

  lemma SplitCons(c: char, s: string, separator: char)
    ensures Split([c] + s, separator)
         == if c == separator then [""] + Split(s, separator)
             else [[c] + Split(s, separator)[0]] + Split(s, separator)[1..]
    ensures Split("", separator) == [""]
  {
  }

  lemma {:induction false} SplitAt(a: string, b: string, separator: char)
    ensures Split(a + [separator] + b, separator) == Split(a, separator) + Split(b, separator)
  {
    hide Split;
    if a == [] {
      assert a + [separator] + b == [separator] + b;
      SplitCons(separator, b, separator);
    } else {
      SplitAt(a[1..], b, separator);
      SplitAtCons(a[0], a[1..], b, separator);
      assert a == [a[0]] + a[1..];
    }
  }

  lemma SplitAtCons(c: char, rest: string, b: string, separator: char)
    requires Split(rest + [separator] + b, separator) == Split(rest, separator) + Split(b, separator)
    ensures Split([c] + rest + [separator] + b, separator) == Split([c] + rest, separator) + Split(b, separator)
  {
    hide Split;
    var parts, tail := Split(rest, separator), Split(b, separator);
    assert [c] + rest + [separator] + b == [c] + (rest + [separator] + b);
    SplitCons(c, rest, separator);
    SplitCons(c, rest + [separator] + b, separator);
    assert (parts + tail)[0] == parts[0] && (parts + tail)[1..] == parts[1..] + tail;
  }

  lemma {:induction false} JoinedSum(a: seq<string>, b: seq<string>, separator: char)
    requires a != [] && b != []
    ensures Joined(a + b, separator) == Joined(a, separator) + [separator] + Joined(b, separator)
  {
    if |a| == 1 {
      assert (a + b)[1..] == b;
    } else {
      assert (a + b)[1..] == a[1..] + b;
      JoinedSum(a[1..], b, separator);
    }
  }

  /** A rule matches exactly when its segments are a prefix of the request's segments. */
  lemma MatchesIffSegmentPrefix(request: string, rule: string)
    ensures PathMatches(request, rule)
       <==> Split(DropTrailingSlashes(rule), '/') <= Split(DropTrailingSlashes(request), '/')
  {
    var a, b := DropTrailingSlashes(rule), DropTrailingSlashes(request);
    var short, long := Split(a, '/'), Split(b, '/');
    if a + "/" <= b {
      var rest := b[|a| + 1..];
      assert b == a + ['/'] + rest;
      SplitAt(a, rest, '/');
    }
    if short <= long {
      SplitJoined(a, '/');
      SplitJoined(b, '/');
      var rest := long[|short|..];
      assert long == short + rest;
      if rest == [] {
        assert long == short;
      } else {
        JoinedSum(short, rest, '/');
        assert a + "/" <= b;
      }
    }
  }

  // ---------------------------------------------------------------- authorisation

  /** Request headers by lower-case name, values stripped. */
  type Headers = map<string, string>

  datatype CapabilityRule = CapabilityRule(key: string, capability: string)

  /** The configuration read from the environment. */
  datatype Config = Config(enforced: bool, rulesValid: bool, rules: seq<CapabilityRule>)

  datatype Denial = MissingHeaders(names: seq<string>) | NoServiceIdentity | InvalidRules
      | MissingCapability(capability: string)

  function Header(headers: Headers, name: string): string {
    if name in headers then headers[name] else ""
  }

  const REQUIRED_HEADERS: seq<string> := ["x-actor-id", "x-correlation-id", "x-role", "x-tenant-id"]

  function MissingRequired(headers: Headers, names: seq<string>): seq<string> {
    if names == [] then []
    else (if Header(headers, names[0]) == "" then [names[0]] else []) + MissingRequired(headers, names[1..])
  }

  /** `_required_capability`: the first rule for the method whose path matches. */
  function RequiredCapability(method_: string, path: string, rules: seq<CapabilityRule>): Option<string> {
    if rules == [] then None
    else
      var prefix := Text.Upper(method_) + " ";
      if prefix <= Text.Upper(rules[0].key) && PathMatches(path, rules[0].key[|prefix|..])
          then Some(rules[0].capability)
      else RequiredCapability(method_, path, rules[1..])
  }

  /** The stripped, non-empty parts of a comma-separated list. */
  function Capabilities(header: string): set<string> {
    Parts(Split(header, ','))
  }

  function Parts(parts: seq<string>): set<string> {
    if parts == [] then {}
    else (if Text.Strip(parts[0]) == "" then {} else {Text.Strip(parts[0])}) + Parts(parts[1..])
  }

  predicate IsWrite(method_: string) {
    var m := Text.Upper(method_);
    m == "POST" || m == "PUT" || m == "PATCH" || m == "DELETE"
  }

  /** `authorize_write_request`: `None` allows. */
  function Authorize(config: Config, method_: string, path: string, headers: Headers): Option<Denial> {
    if !IsWrite(method_) || !config.enforced then None
    else
      var missing := MissingRequired(headers, REQUIRED_HEADERS);
      if missing != [] then Some(MissingHeaders(missing))
      else if Header(headers, "x-service-identity") == "" && Header(headers, "authorization") == ""
          then Some(NoServiceIdentity)
      else if !config.rulesValid then Some(InvalidRules)
      else
        var required := RequiredCapability(method_, path, config.rules);
        if required.None? || required.value in Capabilities(Header(headers, "x-capabilities")) then None
        else Some(MissingCapability(required.value))
  }

  /** A rule is for the request: it names the method, and its segments begin the request's. */
  predicate RuleFor(rule: CapabilityRule, method_: string, path: string) {
    var prefix := Text.Upper(method_) + " ";
    && prefix <= Text.Upper(rule.key)
    && Split(DropTrailingSlashes(rule.key[|prefix|..]), '/') <= Split(DropTrailingSlashes(path), '/')
  }

  /** The first rule for the request, in configuration order. */
  predicate IsFirstRule(rules: seq<CapabilityRule>, method_: string, path: string, k: int) {
    0 <= k < |rules| && RuleFor(rules[k], method_, path) && forall j :: 0 <= j < k ==> !RuleFor(rules[j], method_, path)
  }

  lemma RuleForIsMatch(rule: CapabilityRule, method_: string, path: string)
    ensures var prefix := Text.Upper(method_) + " ";
            RuleFor(rule, method_, path) <==> prefix <= Text.Upper(rule.key) && PathMatches(path, rule.key[|prefix|..])
  {
    hide Split, DropTrailingSlashes, PathMatches;
    var prefix := Text.Upper(method_) + " ";
    if prefix <= Text.Upper(rule.key) {
      MatchesIffSegmentPrefix(path, rule.key[|prefix|..]);
    }
  }

  lemma {:induction false} RequiredIsFirstRule(method_: string, path: string, rules: seq<CapabilityRule>)
        returns (k: nat)
    ensures RequiredCapability(method_, path, rules).None? ==> forall r :: r in rules ==> !RuleFor(r, method_, path)
    ensures RequiredCapability(method_, path, rules).Some? ==>
      IsFirstRule(rules, method_, path, k) && RequiredCapability(method_, path, rules) == Some(rules[k].capability)
  {
    k := 0;
    if rules != [] {
      RuleForIsMatch(rules[0], method_, path);
      hide RuleFor, PathMatches;
      if !RuleFor(rules[0], method_, path) {
        var i := RequiredIsFirstRule(method_, path, rules[1..]);
        assert forall j :: 0 < j < |rules| ==> rules[j] == rules[1..][j - 1];
        k := i + 1;
      }
    }
  }

  lemma {:induction false} NoneMissingIff(headers: Headers, names: seq<string>)
    ensures MissingRequired(headers, names) == [] <==> forall n :: n in names ==> Header(headers, n) != ""
  {
    if names != [] {
      NoneMissingIff(headers, names[1..]);
      assert names == [names[0]] + names[1..];
    }
  }

  /** Exactly which enforced write requests are allowed. */
  lemma AllowedIff(config: Config, method_: string, path: string, headers: Headers)
    requires IsWrite(method_) && config.enforced
    ensures Authorize(config, method_, path, headers).None? <==>
      && (forall n :: n in REQUIRED_HEADERS ==> Header(headers, n) != "")
      && (Header(headers, "x-service-identity") != "" || Header(headers, "authorization") != "")
      && config.rulesValid
      && (forall k :: IsFirstRule(config.rules, method_, path, k) ==>
            config.rules[k].capability in Capabilities(Header(headers, "x-capabilities")))
  {
    NoneMissingIff(headers, REQUIRED_HEADERS);
    var first := RequiredIsFirstRule(method_, path, config.rules);
    hide RuleFor, Capabilities, RequiredCapability, MissingRequired;
  }

  lemma {:induction false} PartsSum(a: seq<string>, b: seq<string>)
    ensures Parts(a + b) == Parts(a) + Parts(b)
  {
    if a == [] {
      assert a + b == b;
    } else {
      assert (a + b)[1..] == a[1..] + b;
      PartsSum(a[1..], b);
    }
  }

  /** Appending to the capability header adds what is appended and keeps the rest. */
  lemma AppendedCapabilities(header: string, more: string)
    ensures Capabilities(header + "," + more) == Capabilities(header) + Capabilities(more)
  {
    SplitAt(header, more, ',');
    PartsSum(Split(header, ','), Split(more, ','));
  }

  /** A request with the capabilities of an allowed one, and possibly more, is allowed, however its header is
      written. */
  lemma MoreCapabilitiesNeverDeny(config: Config, method_: string, path: string, headers: Headers, richer: Headers)
    requires Authorize(config, method_, path, headers).None?
    requires forall n :: n != "x-capabilities" ==> Header(richer, n) == Header(headers, n)
    requires Capabilities(Header(headers, "x-capabilities")) <= Capabilities(Header(richer, "x-capabilities"))
    ensures Authorize(config, method_, path, richer).None?
  {
    hide RequiredCapability, Capabilities, IsWrite;
    assert "x-capabilities"[2] == 'c' && "x-capabilities"[3] == 'a' && "x-service-identity"[2] == 's';
    assert "x-actor-id"[2] == 'a' && "x-correlation-id"[3] == 'o' && "x-role"[2] == 'r' && "x-tenant-id"[2] == 't' &&
        "authorization"[0] == 'a';
    SameRequired(headers, richer, REQUIRED_HEADERS);
  }

  /** Appending to the header is one way to add capabilities. */
  lemma AppendingNeverDenies(config: Config, method_: string, path: string, headers: Headers, more: string)
    requires Authorize(config, method_, path, headers).None?
    ensures var richer := headers["x-capabilities" := Header(headers, "x-capabilities") + "," + more];
            Authorize(config, method_, path, richer).None?
  {
    hide Authorize, Capabilities;
    AppendedCapabilities(Header(headers, "x-capabilities"), more);
    MoreCapabilitiesNeverDeny(config, method_, path, headers,
                              headers["x-capabilities" := Header(headers, "x-capabilities") + "," + more]);
  }

  lemma {:induction false} SameRequired(a: Headers, b: Headers, names: seq<string>)
    requires forall n :: n in names ==> Header(a, n) == Header(b, n)
    ensures MissingRequired(a, names) == MissingRequired(b, names)
  {
    if names != [] {
      assert names[0] in names;
      SameRequired(a, b, names[1..]);
    }
  }
}
