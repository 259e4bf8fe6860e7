/**
 * The interactive front end (DataFiller/UI/ConsoleUI.cs): the table-mapping
 * parser, the batch-size and thread-count validators, and the ConsoleUI
 * object whose configuration the prompts fill in before the run starts.
 */
module UI {
  import opened Wrappers
  import opened Integers
  import opened Text
  import opened Models
  import opened DataFillerService

  // ---------------------------------------------------------------------
  // Table mappings: "table1,1000;table2,2000"
  // ---------------------------------------------------------------------

  /** Why an input line was rejected: the two messages the parser prints. */
  datatype MappingError =
    | InvalidFormat
    | TableDoesNotExist(name: string)

  /**
   * One `name,count` entry: exactly two comma-separated pieces, a count that
   * Int32.TryParse accepts and that is positive, and a table (the trimmed
   * name) that exists. The format is checked before the store is asked.
   */
  function ParseEntry(pair: string, tableExists: string -> bool): (r: Result<(string, int32), MappingError>)
    ensures r.Ok? ==> r.value.1 > 0 && tableExists(r.value.0)
    ensures r.Ok? ==> ',' !in r.value.0
    ensures r.Err? && r.error.TableDoesNotExist? ==> !tableExists(r.error.name)
  {
    var parts := Split(pair, ',');
    if |parts| != 2 then Err(InvalidFormat)
    else
      match TryParseInt32(parts[1])
      case None => Err(InvalidFormat)
      case Some(count) =>
        if count <= 0 then Err(InvalidFormat)
        else
          var tableName := Trim(parts[0]);
          assert ',' !in parts[0];
          TrimByIsInfix(parts[0], IsWhiteSpace);
          if !tableExists(tableName) then Err(TableDoesNotExist(tableName))
          else Ok((tableName, count))
  }

  /**
   * The format check of one entry: `pair` is `raw`, one ',', then `num`, and
   * Int32.TryParse reads `num` as a number above 0.
   */
  ghost predicate WellFormedEntry(pair: string, raw: string, num: string) {
    SplitsInTwo(pair, ',', raw, num) && TryParseInt32(num).Some? && TryParseInt32(num).value > 0
  }

  /**
   * An entry is accepted with `(name, count)` exactly when it is two
   * ','-pieces, the second parses to `count` above 0, and `name` is the
   * trimmed first piece and an existing table.
   */
  lemma ParseEntryAccepts(pair: string, tableExists: string -> bool, name: string, count: int32)
    ensures ParseEntry(pair, tableExists) == Ok((name, count)) <==>
      exists raw, num :: WellFormedEntry(pair, raw, num) && TryParseInt32(num) == Some(count)
                         && name == Trim(raw) && tableExists(name)
  {
    SplitTwo(pair, ',');
    var parts := Split(pair, ',');
    if ParseEntry(pair, tableExists) == Ok((name, count)) {
      assert WellFormedEntry(pair, parts[0], parts[1]);
    }
  }

  /** An entry is rejected as malformed exactly when it fails the format check. */
  lemma ParseEntryFormatError(pair: string, tableExists: string -> bool)
    ensures ParseEntry(pair, tableExists) == Err(InvalidFormat) <==>
      !exists raw, num :: WellFormedEntry(pair, raw, num)
  {
    SplitTwo(pair, ',');
    var parts := Split(pair, ',');
    if |parts| == 2 && TryParseInt32(parts[1]).Some? && TryParseInt32(parts[1]).value > 0 {
      assert WellFormedEntry(pair, parts[0], parts[1]);
    }
  }

  /** A well-formed entry is rejected for its table exactly when the trimmed name fails the existence check. */
  lemma ParseEntryMissingTable(pair: string, tableExists: string -> bool, name: string)
    ensures ParseEntry(pair, tableExists) == Err(TableDoesNotExist(name)) <==>
      exists raw, num :: WellFormedEntry(pair, raw, num) && name == Trim(raw) && !tableExists(name)
  {
    SplitTwo(pair, ',');
    var parts := Split(pair, ',');
    if ParseEntry(pair, tableExists) == Err(TableDoesNotExist(name)) {
      assert WellFormedEntry(pair, parts[0], parts[1]);
    }
  }

  /** The result of parsing one entry. */
  type EntryResult = Result<(string, int32), MappingError>

  /** The parser ConfigureTablesAsync applies to each entry, against the store's table list. */
  function EntryParser(tableExists: string -> bool): string -> EntryResult {
    pair => ParseEntry(pair, tableExists)
  }

  /**
   * The loop over the entries, as a fold: the mappings after the entries,
   * a later entry overwriting an earlier one of the same table, or the
   * error of the first entry that fails.
   */
  function MappingsOf(entries: seq<string>, parse: string -> EntryResult): Result<map<string, int32>, MappingError>
    decreases |entries|
  {
    if entries == [] then Ok(map[])
    else
      match MappingsOf(entries[..|entries| - 1], parse)
      case Err(e) => Err(e)
      case Ok(m) =>
        match parse(entries[|entries| - 1])
        case Err(e) => Err(e)
        case Ok(entry) => Ok(m[entry.0 := entry.1])
  }

  /** What a line of input yields: its non-empty ';'-separated entries, folded. */
  function TableMappingsOf(input: string, tableExists: string -> bool): Result<map<string, int32>, MappingError> {
    MappingsOf(SplitNonEmpty(input, ';'), EntryParser(tableExists))
  }

  /** The body of the `while (true)` in ConfigureTablesAsync, for one line of input. */
  method ParseTableMappings(input: string, tableExists: string -> bool)
    returns (r: Result<map<string, int32>, MappingError>)
    ensures r == TableMappingsOf(input, tableExists)
    ensures r.Ok? ==> forall t :: t in r.value ==> r.value[t] > 0 && tableExists(t)
  {
    r := ParseEntries(SplitNonEmpty(input, ';'), tableExists);
  }

  /** The `foreach` over the entries: stops at the first entry that fails. */
  method ParseEntries(entries: seq<string>, tableExists: string -> bool)
    returns (r: Result<map<string, int32>, MappingError>)
    ensures r == MappingsOf(entries, EntryParser(tableExists))
    ensures r.Ok? ==> forall t :: t in r.value ==> r.value[t] > 0 && tableExists(t)
  {
    ghost var parse := EntryParser(tableExists);
    var mappings: map<string, int32> := map[];
    var i := 0;
    while i < |entries|
      invariant 0 <= i <= |entries|
      invariant MappingsOf(entries[..i], parse) == Ok(mappings)
    {
      var parsed := ParseEntry(entries[i], tableExists);
      assert parse(entries[i]) == parsed;
      assert entries[..i + 1][..i] == entries[..i];
      if parsed.Err? {
        ErrorIsFinal(entries, i + 1, parse);
        return Err(parsed.error);
      }
      mappings := mappings[parsed.value.0 := parsed.value.1];
      i := i + 1;
    }
    assert entries[..i] == entries;
    MappingsOfValid(entries, tableExists);
    r := Ok(mappings);
  }

  /** Once an entry fails, the entries after it change nothing. */
  lemma {:induction false} ErrorIsFinal(entries: seq<string>, n: nat, parse: string -> EntryResult)
    requires n <= |entries|
    requires MappingsOf(entries[..n], parse).Err?
    ensures MappingsOf(entries, parse) == MappingsOf(entries[..n], parse)
    decreases |entries|
  {
    if n < |entries| {
      var init := entries[..|entries| - 1];
      assert init[..n] == entries[..n];
      ErrorIsFinal(init, n, parse);
    } else {
      assert entries[..n] == entries;
    }
  }

  /** Every accepted mapping has a positive count and names a table that exists. */
  lemma {:induction false} MappingsOfValid(entries: seq<string>, tableExists: string -> bool)
    ensures var r := MappingsOf(entries, EntryParser(tableExists));
      r.Ok? ==> forall t :: t in r.value ==> r.value[t] > 0 && tableExists(t)
    decreases |entries|
  {
    if entries != [] {
      MappingsOfValid(entries[..|entries| - 1], tableExists);
    }
  }

  /** A line is accepted exactly when every one of its entries is. */
  lemma {:induction false} MappingsOfAccepts(entries: seq<string>, parse: string -> EntryResult)
    ensures MappingsOf(entries, parse).Ok? <==>
      forall i :: 0 <= i < |entries| ==> parse(entries[i]).Ok?
    decreases |entries|
  {
    if entries != [] {
      var init := entries[..|entries| - 1];
      MappingsOfAccepts(init, parse);
      assert forall i :: 0 <= i < |init| ==> init[i] == entries[i];
    }
  }

  /** Entry `i` parses, and names table `t`. */
  ghost predicate EntryNames(entries: seq<string>, parse: string -> EntryResult, i: int, t: string) {
    0 <= i < |entries| && parse(entries[i]).Ok? && parse(entries[i]).value.0 == t
  }

  /** Entry `k` is the first to fail, and fails with `e`. */
  ghost predicate FirstFailure(entries: seq<string>, parse: string -> EntryResult, k: int, e: MappingError) {
    && 0 <= k < |entries|
    && parse(entries[k]) == Err(e)
    && forall j :: 0 <= j < k ==> parse(entries[j]).Ok?
  }

  /** A rejected line reports the error of its first failing entry. */
  lemma {:induction false} MappingsOfFirstError(entries: seq<string>, parse: string -> EntryResult)
    requires MappingsOf(entries, parse).Err?
    ensures exists k :: FirstFailure(entries, parse, k, MappingsOf(entries, parse).error)
    decreases |entries|
  {
    var init := entries[..|entries| - 1];
    assert forall i :: 0 <= i < |init| ==> init[i] == entries[i];
    if MappingsOf(init, parse).Err? {
      MappingsOfFirstError(init, parse);
      var k :| FirstFailure(init, parse, k, MappingsOf(init, parse).error);
      assert FirstFailure(entries, parse, k, MappingsOf(entries, parse).error);
    } else {
      MappingsOfAccepts(init, parse);
      assert FirstFailure(entries, parse, |init|, MappingsOf(entries, parse).error);
    }
  }

  /** An accepted line maps exactly the tables its entries name. */
  lemma {:induction false} MappingsOfKeys(entries: seq<string>, parse: string -> EntryResult)
    requires MappingsOf(entries, parse).Ok?
    ensures forall t :: t in MappingsOf(entries, parse).value <==>
      exists i :: EntryNames(entries, parse, i, t)
    decreases |entries|
  {
    if entries != [] {
      var n := |entries| - 1;
      var init := entries[..n];
      MappingsOfKeys(init, parse);
      var m := MappingsOf(entries, parse).value;
      var last := parse(entries[n]).value;
      assert EntryNames(entries, parse, n, last.0);
      forall t | t in m
        ensures exists i :: EntryNames(entries, parse, i, t)
      {
        if t != last.0 {
          var i :| EntryNames(init, parse, i, t);
          assert entries[i] == init[i];
          assert EntryNames(entries, parse, i, t);
        }
      }
      forall t | exists i :: EntryNames(entries, parse, i, t)
        ensures t in m
      {
        var i :| EntryNames(entries, parse, i, t);
        if i < n {
          assert entries[i] == init[i];
          assert EntryNames(init, parse, i, t);
        }
      }
    }
  }

  /** Entry `i` names `t` and no later entry does. */
  ghost predicate LastNaming(entries: seq<string>, parse: string -> EntryResult, i: int, t: string) {
    EntryNames(entries, parse, i, t) && forall j :: i < j < |entries| ==> !EntryNames(entries, parse, j, t)
  }

  /** Of several entries for one table, the last one's count is kept. */
  lemma {:induction false} MappingsOfLastWins(entries: seq<string>, parse: string -> EntryResult, i: int, t: string)
    requires MappingsOf(entries, parse).Ok?
    requires LastNaming(entries, parse, i, t)
    ensures t in MappingsOf(entries, parse).value
    ensures MappingsOf(entries, parse).value[t] == parse(entries[i]).value.1
    decreases |entries|
  {
    var n := |entries| - 1;
    if i < n {
      var init := entries[..n];
      assert !EntryNames(entries, parse, n, t);
      assert LastNaming(init, parse, i, t) by {
        assert entries[i] == init[i];
        forall j | i < j < |init|
          ensures !EntryNames(init, parse, j, t)
        {
          assert entries[j] == init[j];
          assert !EntryNames(entries, parse, j, t);
        }
      }
      MappingsOfLastWins(init, parse, i, t);
    }
  }

  /** One entry in the format the prompt asks for. */
  function FormatEntry(name: string, count: int32): string {
    name + [','] + FormatInt32(count)
  }

  /** The entries of a list of (table, count) pairs. */
  function FormatEntries(pairs: seq<(string, int32)>): (entries: seq<string>)
    ensures |entries| == |pairs|
  {
    seq(|pairs|, i requires 0 <= i < |pairs| => FormatEntry(pairs[i].0, pairs[i].1))
  }

  /** The dictionary a list of pairs gives when later pairs overwrite earlier ones. */
  function MapOfPairs(pairs: seq<(string, int32)>): map<string, int32>
    decreases |pairs|
  {
    if pairs == [] then map[]
    else MapOfPairs(pairs[..|pairs| - 1])[pairs[|pairs| - 1].0 := pairs[|pairs| - 1].1]
  }

  /** A name the prompt's format can carry: no separators, no surrounding whitespace, an existing table. */
  predicate PlainTableName(name: string, tableExists: string -> bool) {
    && ',' !in name && ';' !in name
    && (name != [] ==> !IsWhiteSpace(name[0]) && !IsWhiteSpace(name[|name| - 1]))
    && tableExists(name)
  }

  /**
   * A formatted entry parses back to its name and count when the name is an
   * existing table with no ',' or ';' and no whitespace at either end, and
   * the count is positive. A name with whitespace around it comes back trimmed.
   */
  lemma ParseFormattedEntry(name: string, count: int32, tableExists: string -> bool)
    requires PlainTableName(name, tableExists) && count > 0
    ensures ParseEntry(FormatEntry(name, count), tableExists) == Ok((name, count))
  {
    var digits := FormatInt32(count);
    assert ',' !in digits by {
      assert digits == NatToDigits(count);
    }
    assert Join([name, digits], ',') == FormatEntry(name, count);
    SplitJoin([name, digits], ',');
    TryParseFormat(count);
    TrimUntouched(name);
  }

  /** A formatted entry is never empty and holds no ';'. */
  lemma FormattedEntryShape(name: string, count: int32)
    requires ';' !in name && count > 0
    ensures FormatEntry(name, count) != "" && ';' !in FormatEntry(name, count)
  {
    var digits := FormatInt32(count);
    assert digits == NatToDigits(count);
    assert FormatEntry(name, count)[|name|] == ',';
  }

  /** Writing pairs in the prompt's format and parsing the line gives their dictionary back. */
  lemma ParseFormattedMappings(pairs: seq<(string, int32)>, tableExists: string -> bool)
    requires forall i :: 0 <= i < |pairs| ==> PlainTableName(pairs[i].0, tableExists) && pairs[i].1 > 0
    ensures TableMappingsOf(Join(FormatEntries(pairs), ';'), tableExists) == Ok(MapOfPairs(pairs))
  {
    var entries := FormatEntries(pairs);
    forall i | 0 <= i < |entries|
      ensures entries[i] != "" && ';' !in entries[i]
    {
      FormattedEntryShape(pairs[i].0, pairs[i].1);
    }
    SplitNonEmptyJoin(entries, ';');
    FormattedEntriesFold(pairs, tableExists);
  }

  /** The fold over formatted entries builds the pairs' dictionary. */
  lemma {:induction false} FormattedEntriesFold(pairs: seq<(string, int32)>, tableExists: string -> bool)
    requires forall i :: 0 <= i < |pairs| ==> PlainTableName(pairs[i].0, tableExists) && pairs[i].1 > 0
    ensures MappingsOf(FormatEntries(pairs), EntryParser(tableExists)) == Ok(MapOfPairs(pairs))
    decreases |pairs|
  {
    if pairs != [] {
      var n := |pairs| - 1;
      FormattedEntriesFold(pairs[..n], tableExists);
      assert FormatEntries(pairs)[..n] == FormatEntries(pairs[..n]);
      ParseFormattedEntry(pairs[n].0, pairs[n].1, tableExists);
    }
  }

  /** A line made of ';' only is accepted and configures no table. */
  lemma SeparatorsOnlyConfigureNothing(input: string, tableExists: string -> bool)
    requires forall k :: 0 <= k < |input| ==> input[k] == ';'
    ensures TableMappingsOf(input, tableExists) == Ok(map[])
  {
    SplitNonEmptyIsEmpty(input, ';');
  }

  /** A malformed entry is rejected without asking the store about its table. */
  lemma FormatCheckedFirst(pair: string, te1: string -> bool, te2: string -> bool)
    requires ParseEntry(pair, te1) == Err(InvalidFormat)
    ensures ParseEntry(pair, te2) == Err(InvalidFormat)
  {
  }

  // ---------------------------------------------------------------------
  // Numeric prompts
  // ---------------------------------------------------------------------

  /** Spectre.Console's ValidationResult. */
  datatype ValidationResult = Success | Error(message: string)

  const DefaultBatchSize: int32 := 1000
  const MaxBatchSize: int32 := 10000
  const DefaultThreadCount: int32 := 10
  const MaxThreadCount: int32 := 100

  /** The batch-size validator: positive and at most 10000. */
  function ValidateBatchSize(size: int32): (r: ValidationResult)
    ensures r.Success? <==> 0 < size <= MaxBatchSize
    ensures r.Error? ==> r.message != ""
  {
    if size <= 0 then Error("[red]Batch size must be greater than 0[/]")
    else if size > MaxBatchSize then Error("[red]Batch size must not exceed 10000[/]")
    else Success
  }

  /** The thread-count validator: positive and at most 100. */
  function ValidateThreadCount(count: int32): (r: ValidationResult)
    ensures r.Success? <==> 0 < count <= MaxThreadCount
    ensures r.Error? ==> r.message != ""
  {
    if count <= 0 then Error("[red]Thread count must be greater than 0[/]")
    else if count > MaxThreadCount then Error("[red]Thread count must not exceed 100[/]")
    else Success
  }

  /** One answer to a numeric prompt: an empty line (the default) or a number. */
  datatype PromptAnswer = Default | Entered(value: int32)

  /**
   * What a TextPrompt<int> with a default and a validator makes of one
   * answer: the default as it is, an entered number if the validator accepts
   * it, otherwise nothing (the prompt shows the error and asks again).
   */
  function PromptValue(answer: PromptAnswer, default: int32, validate: int32 -> ValidationResult): (r: Option<int32>)
    ensures answer.Default? ==> r == Some(default)
    ensures answer.Entered? ==> (r.Some? <==> validate(answer.value).Success?)
    ensures r.Some? && answer.Entered? ==> r.value == answer.value
  {
    match answer
    case Default => Some(default)
    case Entered(v) => if validate(v).Success? then Some(v) else None
  }

  /** The batch-size prompt only ever yields a size the fill loop can use. */
  lemma BatchSizePromptInRange(answer: PromptAnswer)
    ensures var r := PromptValue(answer, DefaultBatchSize, ValidateBatchSize);
      r.Some? ==> 0 < r.value <= MaxBatchSize
  {
  }

  /** The thread-count prompt only ever yields a count between 1 and 100. */
  lemma ThreadCountPromptInRange(answer: PromptAnswer)
    ensures var r := PromptValue(answer, DefaultThreadCount, ValidateThreadCount);
      r.Some? ==> 0 < r.value <= MaxThreadCount
  {
  }

  /** The first answer a prompt accepts, and its position. */
  function FirstAccepted(answers: seq<PromptAnswer>, default: int32, validate: int32 -> ValidationResult): (r: Option<(nat, int32)>)
    ensures r.Some? ==>
      && r.value.0 < |answers|
      && PromptValue(answers[r.value.0], default, validate) == Some(r.value.1)
      && forall j :: 0 <= j < r.value.0 ==> PromptValue(answers[j], default, validate).None?
    ensures r.None? ==> forall j :: 0 <= j < |answers| ==> PromptValue(answers[j], default, validate).None?
    decreases |answers|
  {
    if answers == [] then None
    else
      match PromptValue(answers[0], default, validate)
      case Some(v) => Some((0, v))
      case None =>
        match FirstAccepted(answers[1..], default, validate)
        case None => None
        case Some(found) => Some((found.0 + 1, found.1))
  }

  // ---------------------------------------------------------------------
  // The console object
  // ---------------------------------------------------------------------

  /** A line the text prompt refuses to return: empty or whitespace only. */
  predicate IsBlank(s: string) {
    forall k :: 0 <= k < |s| ==> IsWhiteSpace(s[k])
  }

  /** A line ConfigureTablesAsync commits: the prompt returns it and it parses. */
  predicate AcceptsTables(input: string, tableExists: string -> bool) {
    !IsBlank(input) && TableMappingsOf(input, tableExists).Ok?
  }

  /** The first line, from position `from` on, that ConfigureTablesAsync commits. */
  function FirstAcceptedLine(lines: seq<string>, from: nat, tableExists: string -> bool): (r: Option<nat>)
    requires from <= |lines|
    ensures r.Some? ==> from <= r.value < |lines| && AcceptsTables(lines[r.value], tableExists)
    ensures r.Some? ==> forall j :: from <= j < r.value ==> !AcceptsTables(lines[j], tableExists)
    ensures r.None? ==> forall j :: from <= j < |lines| ==> !AcceptsTables(lines[j], tableExists)
    decreases |lines| - from
  {
    if from == |lines| then None
    else if AcceptsTables(lines[from], tableExists) then Some(from)
    else FirstAcceptedLine(lines, from + 1, tableExists)
  }

  class ConsoleUI {
    /** `_config`: what the prompts have configured so far. */
    var config: Configuration

    /** The configuration can be handed to the fill engine. */
    ghost predicate Valid()
      reads this
    {
      && 0 < config.batchSize <= MaxBatchSize
      && forall t :: t in config.tableMappings ==> config.tableMappings[t] > 0
    }

    /** `new ConsoleUI()`: the default configuration. */
    constructor()
      ensures config == DefaultConfiguration
      ensures Valid()
    {
      config := DefaultConfiguration;
    }

    /**
     * ConfigureTablesAsync, fed the lines typed at the prompt: lines are
     * read until one parses; its mappings replace the table mappings, all
     * at once. Rejected lines change nothing.
     */
    method ConfigureTables(lines: seq<string>, db: Gateway) returns (taken: Option<nat>)
      modifies this
      ensures taken == FirstAcceptedLine(lines, 0, db.tableExists)
      ensures taken.Some? ==> TableMappingsOf(lines[taken.value], db.tableExists) == Ok(config.tableMappings)
      ensures taken.Some? ==> forall t :: t in config.tableMappings ==>
        config.tableMappings[t] > 0 && db.tableExists(t)
      ensures taken.Some? ==>
        config.connectionString == old(config.connectionString) && config.batchSize == old(config.batchSize)
      ensures taken.None? ==> config == old(config)
    {
      var i := 0;
      while i < |lines|
        invariant 0 <= i <= |lines|
        invariant config == old(config)
        invariant FirstAcceptedLine(lines, 0, db.tableExists) == FirstAcceptedLine(lines, i, db.tableExists)
      {
        if !IsBlank(lines[i]) {
          var mappings := ParseTableMappings(lines[i], db.tableExists);
          if mappings.Ok? {
            config := config.(tableMappings := mappings.value);
            return Some(i);
          }
        }
        i := i + 1;
      }
      return None;
    }

    /**
     * ConfigureBatchSizeAsync, fed the answers typed at the prompt: the
     * first accepted answer becomes the batch size.
     */
    method ConfigureBatchSize(answers: seq<PromptAnswer>) returns (taken: Option<nat>)
      modifies this
      ensures taken.Some? ==> taken.value < |answers|
      ensures taken.Some? ==>
        var accepted := FirstAccepted(answers, DefaultBatchSize, ValidateBatchSize);
        accepted.Some? && accepted.value.0 == taken.value &&
        config == old(config).(batchSize := accepted.value.1)
      ensures taken.Some? ==> 0 < config.batchSize <= MaxBatchSize
      ensures taken.None? ==> config == old(config)
      ensures taken.None? ==> FirstAccepted(answers, DefaultBatchSize, ValidateBatchSize).None?
      ensures old(Valid()) ==> Valid()
    {
      var accepted := FirstAccepted(answers, DefaultBatchSize, ValidateBatchSize);
      if accepted.None? {
        return None;
      }
      BatchSizePromptInRange(answers[accepted.value.0]);
      config := config.(batchSize := accepted.value.1);
      return Some(accepted.value.0);
    }

    /** StartFillingAsync: hands the configuration to the fill engine. */
    method StartFilling(db: Gateway, rng: (string, nat) -> Draws) returns (report: map<string, TableOutcome>)
      requires Valid()
      requires forall t :: db.tableData(t) != [] ==> ValidRandomness(db, rng, t)
      ensures report.Keys == config.tableMappings.Keys
      ensures forall t :: t in report ==>
        IsFillOf(t, config.tableMappings[t], config.batchSize, db, rng, report[t])
    {
      report := FillData(config, db, rng);
    }

    /**
     * RunAsync after the connection step: tables, then batch size, then the
     * thread count, then the run. With finitely many lines typed, the run
     * starts only if every prompt got an answer it accepts.
     */
    method Run(lines: seq<string>, batchAnswers: seq<PromptAnswer>, threadAnswers: seq<PromptAnswer>,
               db: Gateway, rng: (string, nat) -> Draws)
      returns (report: Option<map<string, TableOutcome>>)
      requires forall t :: db.tableData(t) != [] ==> ValidRandomness(db, rng, t)
      modifies this
      ensures report.Some? <==>
        && FirstAcceptedLine(lines, 0, db.tableExists).Some?
        && FirstAccepted(batchAnswers, DefaultBatchSize, ValidateBatchSize).Some?
        && FirstAccepted(threadAnswers, DefaultThreadCount, ValidateThreadCount).Some?
      ensures report.Some? ==>
        TableMappingsOf(lines[FirstAcceptedLine(lines, 0, db.tableExists).value], db.tableExists)
          == Ok(config.tableMappings)
      ensures report.Some? ==>
        config.batchSize == FirstAccepted(batchAnswers, DefaultBatchSize, ValidateBatchSize).value.1
      ensures config.connectionString == old(config.connectionString)
      ensures FirstAcceptedLine(lines, 0, db.tableExists).None? ==> config == old(config)
      ensures FirstAcceptedLine(lines, 0, db.tableExists).Some? ==>
        TableMappingsOf(lines[FirstAcceptedLine(lines, 0, db.tableExists).value], db.tableExists)
          == Ok(config.tableMappings)
      ensures FirstAccepted(batchAnswers, DefaultBatchSize, ValidateBatchSize).None? ==>
        config.batchSize == old(config.batchSize)
      ensures report.Some? ==> Valid()
      ensures report.Some? ==> report.value.Keys == config.tableMappings.Keys
      ensures report.Some? ==> forall t :: t in report.value ==>
        IsFillOf(t, config.tableMappings[t], config.batchSize, db, rng, report.value[t])
    {
      var tables := ConfigureTables(lines, db);
      if tables.None? {
        return None;
      }
      var batch := ConfigureBatchSize(batchAnswers);
      if batch.None? {
        return None;
      }
      var threads := FirstAccepted(threadAnswers, DefaultThreadCount, ValidateThreadCount);
      if threads.None? {
        return None;
      }
      var r := StartFilling(db, rng);
      return Some(r);
    }
  }
}
