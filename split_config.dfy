/**
  The line parser of `load_record_config` in the delete and check scripts: split at
  the first `=`, strip both sides, drop one pair of surrounding double quotes, then
  turn every backslash-backslash-quote into a plain quote.
 */
module SplitConfig {
  import opened Wrappers
  import opened Text
  import opened ConfigFile

  /** The three characters `\`, `\`, `"`: the Python literal `'\\\\"'`. */
  const EscapedQuote: string := ['\\', '\\', '"']

  /** `value[1:-1]` when `value` both starts and ends with `"`; `value` otherwise. */
  function Unquote(v: string): (r: string)
    ensures r != v ==> StartsWith(v, '"') && EndsWith(v, '"')
    ensures StartsWith(v, '"') && EndsWith(v, '"') ==> |r| == if |v| >= 2 then |v| - 2 else 0
    ensures StartsWith(v, '"') && EndsWith(v, '"') && |v| >= 2 ==> v == ['"'] + r + ['"']
  {
    if StartsWith(v, '"') && EndsWith(v, '"') then
      (if |v| >= 2 then v[1..|v| - 1] else [])
    else v
  }

  /** Only the outer pair of quotes goes: quoting a value and unquoting it gives it back. */
  lemma UnquoteQuoted(x: string)
    ensures Unquote(['"'] + x + ['"']) == x
  {
    var q := ['"'] + x + ['"'];
    assert q[1..|q| - 1] == x;
  }

  /** `value.replace('\\\\"', '"')`. */
  function Unescape(v: string): string {
    ReplaceAll(v, EscapedQuote, ['"'])
  }

  /**
    Every stretch between occurrences of the escape is kept as it is; each occurrence becomes
    one quote, and a value without the escape is unchanged.
   */
  lemma UnescapeReplacesEachOccurrence(v: string)
    ensures v == Join(SplitOn(v, EscapedQuote), EscapedQuote)
    ensures forall k :: 0 <= k < |SplitOn(v, EscapedQuote)| ==> !Occurs(SplitOn(v, EscapedQuote)[k], EscapedQuote)
    ensures !Occurs(v, EscapedQuote) ==> Unescape(v) == v
  {
    JoinSplit(v, EscapedQuote);
    SplitPiecesFree(v, EscapedQuote);
  }

  /** One stripped, non-comment line: key and value, or None for a line without `=`. */
  function ParseLine(line: string): Option<Entry> {
    match Find(line, ['='])
    case None => None
    case Some(i) => Some((Strip(line[..i]), Unescape(Unquote(Strip(line[i + 1..])))))
  }

  /** A line is accepted iff it has an `=`; it is split at the first one. */
  lemma ParseLineSplitsAtFirstEquals(left: string, right: string)
    requires '=' !in left
    ensures ParseLine(left + ['='] + right) == Some((Strip(left), Unescape(Unquote(Strip(right)))))
  {
    FindCharAfter(left, '=', right);
    var line := left + ['='] + right;
    assert line[..|left|] == left;
    assert line[|left| + 1..] == right;
  }

  lemma ParseLineNeedsEquals(line: string)
    ensures ParseLine(line).Some? <==> '=' in line
  {
    OccursChar(line, '=');
  }

  /** The key of an accepted line never contains `=`. */
  lemma ParsedKeyHasNoEquals(line: string)
    requires ParseLine(line).Some?
    ensures '=' !in ParseLine(line).value.0
  {
    var i := Find(line, ['=']).value;
    var left := line[..i];
    OccursChar(left, '=');
    if Occurs(left, ['=']) {
      var j :| 0 <= j <= |left| && OccursAt(left, ['='], j);
      OccursInPrefix(line, ['='], i, j);
    }
    StripKeepsOnly(left, '=');
  }

  /** No key of a loaded config contains `=`. */
  lemma ConfigKeysHaveNoEquals(lines: seq<string>, key: string)
    requires key in Fold(lines, ParseLine)
    ensures '=' !in key
  {
    KeyPresentIffSomeLine(lines, ParseLine, key);
    var i :| 0 <= i < |lines| && HasKey(lines[i], ParseLine, key);
    var line := Strip(lines[i]);
    ParsedKeyHasNoEquals(line);
  }
}
