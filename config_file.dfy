/**
  The loop shared by the three `load_record_config` functions: every line of the
  record file is stripped, blank lines and `#` comments are skipped, the rest is
  handed to a line parser (split-based or regular-expression based), and each
  accepted `(key, value)` pair is written into the config dictionary. The file is
  given as its sequence of lines; opening it is not modelled.
 */
module ConfigFile {
  import opened Wrappers
  import opened Text

  type Config = map<string, string>

  type Entry = (string, string)

  datatype ConfigError = MissingRequiredKeys(required: seq<string>)

  /** The stripped line, or None when it is blank or a comment. */
  function Significant(raw: string): Option<string> {
    var line := Strip(raw);
    if line == [] || line[0] == '#' then None else Some(line)
  }

  /** What one raw line contributes to the config. */
  function EntryOf(raw: string, parse: string -> Option<Entry>): Option<Entry> {
    match Significant(raw)
    case None => None
    case Some(line) => parse(line)
  }

  /** The config after reading `lines` in order: each accepted line overwrites its key. */
  function Fold(lines: seq<string>, parse: string -> Option<Entry>): Config
    decreases |lines|
  {
    if lines == [] then map[]
    else
      var config := Fold(lines[..|lines| - 1], parse);
      match EntryOf(lines[|lines| - 1], parse)
      case None => config
      case Some((key, value)) => config[key := value]
  }

  /** The reading loop of `load_record_config`, with the dictionary updated in place. */
  method LoadEntries(lines: seq<string>, parse: string -> Option<Entry>) returns (config: Config)
    ensures config == Fold(lines, parse)
  {
    config := map[];
    var i := 0;
    while i < |lines|
      invariant 0 <= i <= |lines|
      invariant config == Fold(lines[..i], parse)
    {
      assert lines[..i + 1][..i] == lines[..i];
      var line := Strip(lines[i]);
      if line == [] || line[0] == '#' {
        i := i + 1;
        continue;
      }
      match parse(line) {
        case Some((key, value)) =>
          config := config[key := value];
        case None =>
      }
      i := i + 1;
    }
    assert lines[..|lines|] == lines;
  }

  /** The required-keys check that follows the loop. */
  function CheckRequired(config: Config, required: seq<string>): (r: Result<Config, ConfigError>)
    ensures r.Ok? <==> forall k :: k in required ==> k in config
    ensures r.Ok? ==> r.value == config
    ensures r.Err? ==> r.error == MissingRequiredKeys(required)
  {
    if forall k | k in required :: k in config then Ok(config) else Err(MissingRequiredKeys(required))
  }

  /** `load_record_config` for a given line parser and list of required keys. */
  method LoadRecordConfig(lines: seq<string>, parse: string -> Option<Entry>, required: seq<string>)
    returns (r: Result<Config, ConfigError>)
    ensures r.Ok? <==> forall k :: k in required ==> k in Fold(lines, parse)
    ensures r.Ok? ==> r.value == Fold(lines, parse)
  {
    var config := LoadEntries(lines, parse);
    r := CheckRequired(config, required);
  }

  /** A blank or comment line adds nothing, whatever the parser. */
  lemma SkippedLineAddsNothing(lines: seq<string>, raw: string, parse: string -> Option<Entry>)
    requires Strip(raw) == [] || Strip(raw)[0] == '#'
    ensures Fold(lines + [raw], parse) == Fold(lines, parse)
  {
    assert (lines + [raw])[..|lines|] == lines;
  }

  /** An accepted line sets its key to its value and leaves every other key as it was. */
  lemma AcceptedLineOverwrites(lines: seq<string>, raw: string, parse: string -> Option<Entry>, key: string, value: string)
    requires EntryOf(raw, parse) == Some((key, value))
    ensures Fold(lines + [raw], parse) == Fold(lines, parse)[key := value]
    ensures forall k :: k != key ==> (k in Fold(lines + [raw], parse) <==> k in Fold(lines, parse))
    ensures forall k :: k != key && k in Fold(lines, parse) ==> Fold(lines + [raw], parse)[k] == Fold(lines, parse)[k]
  {
    assert (lines + [raw])[..|lines|] == lines;
  }

  predicate HasKey(raw: string, parse: string -> Option<Entry>, key: string) {
    EntryOf(raw, parse).Some? && EntryOf(raw, parse).value.0 == key
  }

  /** A key is in the config iff some line has it. */
  lemma {:induction false} KeyPresentIffSomeLine(lines: seq<string>, parse: string -> Option<Entry>, key: string)
    ensures key in Fold(lines, parse) <==> exists i :: 0 <= i < |lines| && HasKey(lines[i], parse, key)
    decreases |lines|
  {
    if lines != [] {
      var n := |lines| - 1;
      var init := lines[..n];
      KeyPresentIffSomeLine(init, parse, key);
      assert forall i :: 0 <= i < n ==> init[i] == lines[i];
      if !HasKey(lines[n], parse, key) {
        assert key in Fold(lines, parse) <==> key in Fold(init, parse);
      } else {
        assert key in Fold(lines, parse);
      }
    }
  }

  /** No line after index `i` has `key`. */
  predicate NoLaterLine(lines: seq<string>, parse: string -> Option<Entry>, key: string, i: nat) {
    forall j :: i < j < |lines| ==> !HasKey(lines[j], parse, key)
  }

  /** A line with another key (or none) leaves `key` as the earlier lines set it. */
  lemma OtherLineKeeps(lines: seq<string>, raw: string, parse: string -> Option<Entry>, key: string)
    requires !HasKey(raw, parse, key)
    ensures key in Fold(lines + [raw], parse) <==> key in Fold(lines, parse)
    ensures key in Fold(lines, parse) ==> Fold(lines + [raw], parse)[key] == Fold(lines, parse)[key]
  {
    assert (lines + [raw])[..|lines|] == lines;
  }

  /** The value of a key is the one given by the LAST line that has it. */
  lemma {:induction false} LastLineWins(lines: seq<string>, parse: string -> Option<Entry>, key: string)
    requires key in Fold(lines, parse)
    ensures exists i ::
              && 0 <= i < |lines|
              && EntryOf(lines[i], parse) == Some((key, Fold(lines, parse)[key]))
              && NoLaterLine(lines, parse, key, i)
    decreases |lines|
  {
    var n := |lines| - 1;
    var init := lines[..n];
    assert lines == init + [lines[n]];
    if HasKey(lines[n], parse, key) {
      var value := EntryOf(lines[n], parse).value.1;
      AcceptedLineOverwrites(init, lines[n], parse, key, value);
      assert NoLaterLine(lines, parse, key, n);
    } else {
      OtherLineKeeps(init, lines[n], parse, key);
      LastLineWins(init, parse, key);
      var i :| 0 <= i < n && EntryOf(init[i], parse) == Some((key, Fold(init, parse)[key]))
        && NoLaterLine(init, parse, key, i);
      assert init[i] == lines[i];
      forall j | i < j < |lines| ensures !HasKey(lines[j], parse, key) {
        if j < n {
          assert init[j] == lines[j];
        }
      }
      assert NoLaterLine(lines, parse, key, i);
    }
  }
}
