/**
  Reading the build-time options attached to an additional file: a string-to-string map.
  `bool.TryParse` and `string.IsNullOrWhiteSpace` are library calls; they are modelled here
  over ASCII as the .NET documentation describes them.
*/
module ConfigOptions {
  import opened Wrappers
  import opened StringExtensions

  type AnalyzerOptions = map<string, string>

  predicate IsWhiteSpace(c: char) {
    c == ' ' || c == '\t' || c == '\n' || c == '\r' || c == '\U{000B}' || c == '\U{000C}'
  }

  /** `string.IsNullOrWhiteSpace` on a non-null string: empty, or whitespace only. */
  predicate IsNullOrWhiteSpace(s: string) {
    forall i :: 0 <= i < |s| ==> IsWhiteSpace(s[i])
  }

  /** The characters `bool.TryParse` trims from both ends: whitespace and NUL. */
  predicate IsTrimmed(c: char) {
    IsWhiteSpace(c) || c == '\0'
  }

  function TrimStart(s: string): (r: string)
    ensures |r| <= |s|
    ensures r == [] || !IsTrimmed(r[0])
  {
    if s != [] && IsTrimmed(s[0]) then TrimStart(s[1..]) else s
  }

  function TrimEnd(s: string): (r: string)
    ensures |r| <= |s|
    ensures r == [] || !IsTrimmed(r[|r| - 1])
  {
    if s != [] && IsTrimmed(s[|s| - 1]) then TrimEnd(s[..|s| - 1]) else s
  }

  /**
    `bool.TryParse`: after trimming, the value must equal `True` or `False` ignoring case.
    `None` stands for a failed parse.
  */
  function TryParseBool(value: string): (r: Option<bool>)
    ensures r == Some(true) <==> ToLower(TrimEnd(TrimStart(value))) == "true"
    ensures r == Some(false) <==> ToLower(TrimEnd(TrimStart(value))) == "false"
  {
    var t := ToLower(TrimEnd(TrimStart(value)));
    if t == "true" then Some(true)
    else if t == "false" then Some(false)
    else None
  }

  /** `bool.ToString()`: the text .NET writes for a boolean. */
  function BoolText(b: bool): string {
    if b then "True" else "False"
  }

  /** TeknixIT `GetBooleanOption`: the parsed value when the key is present and parses, else the default. */
  function GetBooleanOption(options: AnalyzerOptions, key: string, defaultValue: bool): (r: bool)
    ensures key !in options ==> r == defaultValue
    ensures r == defaultValue || (key in options && TryParseBool(options[key]) == Some(r))
    ensures key in options && TryParseBool(options[key]).Some? ==> TryParseBool(options[key]) == Some(r)
  {
    if key !in options then defaultValue
    else
      match TryParseBool(options[key])
      case Some(result) => result
      case None => defaultValue
  }

  /** TeknixIT `GetStringOption`: the stored value unless absent, empty or whitespace. */
  function GetStringOption(options: AnalyzerOptions, key: string, defaultValue: string): (r: string)
    ensures r == defaultValue || (key in options && r == options[key] && !IsNullOrWhiteSpace(r))
    ensures key in options && !IsNullOrWhiteSpace(options[key]) ==> r == options[key]
    ensures !IsNullOrWhiteSpace(defaultValue) ==> !IsNullOrWhiteSpace(r)
  {
    if key in options && !IsNullOrWhiteSpace(options[key]) then options[key] else defaultValue
  }

  /** The prefix under which Roslyn exposes MSBuild item metadata. */
  const MetadataPrefix: string := "build_metadata.AdditionalFiles."

  /** Argon `GetBool`: the same lookup under the prefixed key. */
  function GetBool(options: AnalyzerOptions, key: string, defaultValue: bool): (r: bool)
    ensures r == GetBooleanOption(options, MetadataPrefix + key, defaultValue)
  {
    var k := MetadataPrefix + key;
    if k in options then
      (match TryParseBool(options[k]) case Some(b) => b case None => defaultValue)
    else defaultValue
  }

  /** Argon `GetString`: the same lookup under the prefixed key. */
  function GetString(options: AnalyzerOptions, key: string, defaultValue: string): (r: string)
    ensures r == GetStringOption(options, MetadataPrefix + key, defaultValue)
  {
    var k := MetadataPrefix + key;
    if k in options && !IsNullOrWhiteSpace(options[k]) then options[k] else defaultValue
  }

  lemma {:induction false} TrimStartNoop(s: string)
    requires s == [] || !IsTrimmed(s[0])
    ensures TrimStart(s) == s
  {
  }

  lemma {:induction false} TrimEndNoop(s: string)
    requires s == [] || !IsTrimmed(s[|s| - 1])
    ensures TrimEnd(s) == s
  {
  }

  /** `bool.TryParse` reads back what `bool.ToString()` writes. */
  lemma ParseBoolText(b: bool)
    ensures TryParseBool(BoolText(b)) == Some(b)
  {
    TrimStartNoop(BoolText(b));
    TrimEndNoop(BoolText(b));
    assert ToLower("True") == "true";
    assert ToLower("False") == "false";
  }

  /** Storing `bool.ToString()` under a key makes `GetBooleanOption` return that value. */
  lemma BooleanOptionRoundTrip(options: AnalyzerOptions, key: string, b: bool, defaultValue: bool)
    ensures GetBooleanOption(options[key := BoolText(b)], key, b) == b
    ensures GetBooleanOption(options[key := BoolText(b)], key, defaultValue) == b
  {
    ParseBoolText(b);
  }

  /** A value that does not parse leaves the default in place, whatever it is. */
  lemma BooleanOptionIgnoresGarbage(options: AnalyzerOptions, key: string, defaultValue: bool)
    requires key in options && ToLower(TrimEnd(TrimStart(options[key]))) !in {"true", "false"}
    ensures GetBooleanOption(options, key, defaultValue) == defaultValue
  {
  }

  /** Storing a non-blank value under a key makes `GetStringOption` return it. */
  lemma StringOptionRoundTrip(options: AnalyzerOptions, key: string, value: string, defaultValue: string)
    requires !IsNullOrWhiteSpace(value)
    ensures GetStringOption(options[key := value], key, defaultValue) == value
  {
  }

  /** A boolean option is switched off only by a stored value that parses as `false`. */
  predicate SwitchedOff(options: AnalyzerOptions, key: string) {
    key in options && TryParseBool(options[key]) == Some(false)
  }

  /** A string option overrides its default only with a value that is not blank. */
  predicate Provided(options: AnalyzerOptions, key: string) {
    key in options && !IsNullOrWhiteSpace(options[key])
  }
}
