/**
  The line parser of `load_record_config` in the create script: a stripped line is
  accepted iff it matches `^([^=]+)="?([^"]*)"?$`, and the two groups become key and
  value. `QuotedValue` gives the outcome of the regular-expression engine's
  backtracking on the text after the first `=`; `Decomposes` is the declarative
  reading of the pattern, and the two are proved to agree.

  In Python `$` also matches just before a final newline; the line has been stripped,
  so it never ends with one (`Text.StripHasNoFinalNewline`) and `$` means end of line.
 */
module RegexConfig {
  import opened Wrappers
  import opened Text
  import opened ConfigFile

  /** The two characters `\` and `"`: the Python literal `'\\"'`. */
  const BackslashQuote: string := ['\\', '"']

  /**
    What `"?([^"]*)"?$` captures in `r`: the optional leading quote is taken, then the
    longest quote-free run, then an optional closing quote that must end the text.
   */
  function QuotedValue(r: string): Option<string> {
    var body := if StartsWith(r, '"') then r[1..] else r;
    if '"' !in body then Some(body)
    else if EndsWith(body, '"') && '"' !in body[..|body| - 1] then Some(body[..|body| - 1])
    else None
  }

  /** One stripped, non-comment line: the captured groups, or None when the line does not match. */
  function ParseLine(line: string): Option<Entry> {
    match Find(line, ['='])
    case None => None
    case Some(i) =>
      if i == 0 then None
      else
        match QuotedValue(line[i + 1..])
        case None => None
        case Some(v) =>
          var key := line[..i];
          Some((key, Captured(key, v)))
  }

  /** The second group as stored: only RECORD_CONTENT gets `replace('\\"', '"')`. */
  function Captured(key: string, v: string): string {
    if key == "RECORD_CONTENT" then ReplaceAll(v, BackslashQuote, ['"']) else v
  }

  /** The pattern read declaratively: key, `=`, optional quote, quote-free value, optional quote. */
  predicate Decomposes(line: string, key: string, value: string) {
    && |key| > 0 && '=' !in key && '"' !in value
    && (|| line == key + ['='] + value
        || line == key + ['=', '"'] + value
        || line == key + ['='] + value + ['"']
        || line == key + ['=', '"'] + value + ['"'])
  }

  /** A captured value never contains a quote. */
  lemma QuotedValueHasNoQuote(r: string)
    requires QuotedValue(r).Some?
    ensures '"' !in QuotedValue(r).value
  {
  }

  /** So replacing backslash-quote in a captured value changes nothing. */
  lemma ContentReplaceIsIdentity(v: string)
    requires '"' !in v
    ensures ReplaceAll(v, BackslashQuote, ['"']) == v
  {
    AbsentCharBlocksPattern(v, BackslashQuote, '"');
  }

  /** What the quote part of the pattern accepts, read off `QuotedValue`. */
  predicate QuoteShape(r: string, v: string) {
    || r == v || r == ['"'] + v || r == v + ['"'] || r == ['"'] + v + ['"']
  }

  lemma QuotedValueShape(r: string)
    requires QuotedValue(r).Some?
    ensures QuoteShape(r, QuotedValue(r).value)
  {
    var body := if StartsWith(r, '"') then r[1..] else r;
    assert r == if StartsWith(r, '"') then ['"'] + body else body;
    if '"' in body {
      assert body == body[..|body| - 1] + ['"'];
    }
  }

  lemma {:induction false} ShapeGivesQuotedValue(r: string, v: string)
    requires '"' !in v && QuoteShape(r, v)
    ensures QuotedValue(r) == Some(v)
  {
    if r == v {
    } else if r == ['"'] + v {
      assert r[1..] == v;
    } else if r == v + ['"'] {
      assert !StartsWith(r, '"') by {
        if v != [] {
          assert r[0] == v[0];
        }
      }
      assert r[..|r| - 1] == v;
    } else {
      assert r[1..] == v + ['"'];
      assert r[1..][..|r[1..]| - 1] == v;
    }
  }

  /** The key of an accepted line is the text before its first `=`. */
  lemma {:induction false} ParseLineKey(line: string)
    requires ParseLine(line).Some?
    ensures var i := Find(line, ['=']).value;
      && line == ParseLine(line).value.0 + ['='] + line[i + 1..]
      && '=' !in ParseLine(line).value.0 && |ParseLine(line).value.0| > 0
  {
    var i := Find(line, ['=']).value;
    var key := line[..i];
    OccursChar(key, '=');
    if Occurs(key, ['=']) {
      var j :| 0 <= j <= |key| && OccursAt(key, ['='], j);
      OccursInPrefix(line, ['='], i, j);
    }
    assert line[i..i + 1] == ['='];
    assert line == key + ['='] + line[i + 1..];
  }

  /** The four forms of `Decomposes` are the key, `=`, then a quote shape. */
  lemma ShapeDecomposes(key: string, r: string, v: string)
    requires |key| > 0 && '=' !in key && '"' !in v && QuoteShape(r, v)
    ensures Decomposes(key + ['='] + r, key, v)
  {
    if r == ['"'] + v {
      assert key + ['='] + r == key + ['=', '"'] + v;
    } else if r == ['"'] + v + ['"'] {
      assert key + ['='] + r == key + ['=', '"'] + v + ['"'];
    } else if r == v + ['"'] {
      assert key + ['='] + r == key + ['='] + v + ['"'];
    }
  }

  lemma DecomposesShape(line: string, key: string, v: string)
    requires Decomposes(line, key, v)
    ensures line == key + ['='] + line[|key| + 1..] && QuoteShape(line[|key| + 1..], v)
  {
    var r := line[|key| + 1..];
    if line == key + ['=', '"'] + v {
      assert line == key + ['='] + (['"'] + v);
    } else if line == key + ['=', '"'] + v + ['"'] {
      assert line == key + ['='] + (['"'] + v + ['"']);
    } else if line == key + ['='] + v + ['"'] {
      assert line == key + ['='] + (v + ['"']);
    }
  }

  /** Every accepted line has the shape the pattern describes, with the groups as key and value. */
  lemma ParseLineSound(line: string)
    requires ParseLine(line).Some?
    ensures Decomposes(line, ParseLine(line).value.0, ParseLine(line).value.1)
  {
    var i := Find(line, ['=']).value;
    var r := line[i + 1..];
    var v := QuotedValue(r).value;
    var key := line[..i];
    assert ParseLine(line) == Some((key, Captured(key, v)));
    QuotedValueHasNoQuote(r);
    ContentReplaceIsIdentity(v);
    assert Captured(key, v) == v;
    ParseLineKey(line);
    QuotedValueShape(r);
    ShapeDecomposes(key, r, v);
  }

  /** Every line of that shape is accepted, with exactly those groups. */
  lemma ParseLineComplete(line: string, key: string, value: string)
    requires Decomposes(line, key, value)
    ensures ParseLine(line) == Some((key, value))
  {
    DecomposesShape(line, key, value);
    var r := line[|key| + 1..];
    FindCharAfter(key, '=', r);
    assert line[..|key|] == key;
    ShapeGivesQuotedValue(r, value);
    ContentReplaceIsIdentity(value);
    assert Captured(key, value) == value;
  }

  /**
    A quote inside the value, anywhere but first or last, makes the whole line malformed:
    escaped inner quotes such as `RECORD_CONTENT="\"hi\""` never reach the replacement.
   */
  lemma InnerQuoteRejected(key: string, r: string, k: nat)
    requires |key| > 0 && '=' !in key
    requires 0 < k < |r| - 1 && r[k] == '"'
    ensures ParseLine(key + ['='] + r) == None
  {
    var line := key + ['='] + r;
    FindCharAfter(key, '=', r);
    assert line[|key| + 1..] == r;
    var body := if StartsWith(r, '"') then r[1..] else r;
    var p := if StartsWith(r, '"') then k - 1 else k;
    assert body[p] == '"' && p < |body| - 1;
    assert body[..|body| - 1][p] == '"';
  }

  lemma EscapedContentRejected()
    ensures ParseLine("RECORD_CONTENT=\"\\\"hi\\\"\"") == None
  {
    var r := "\"\\\"hi\\\"\"";
    assert "RECORD_CONTENT=\"\\\"hi\\\"\"" == "RECORD_CONTENT" + ['='] + r;
    assert r[2] == '"';
    InnerQuoteRejected("RECORD_CONTENT", r, 2);
  }

  /** The loaded config has only quote-free values and keys without `=`. */
  lemma ConfigEntriesMatchPattern(lines: seq<string>, key: string)
    requires key in Fold(lines, ParseLine)
    ensures |key| > 0 && '=' !in key && '"' !in Fold(lines, ParseLine)[key]
  {
    LastLineWins(lines, ParseLine, key);
    var i :| 0 <= i < |lines| && EntryOf(lines[i], ParseLine) == Some((key, Fold(lines, ParseLine)[key]));
    ParseLineSound(Strip(lines[i]));
  }
}
