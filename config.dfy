/**
 * The saved-connection registry of windows/config.go: the connections file,
 * `saveConnection`, `GetConnections`, `FindConnectionByName`,
 * `FormatConnectionsList` and the checks of the "Save & Connect" button.
 *
 * The JSON file `~/.redicli/connections.json` is a field of the class
 * `ConnectionStore`, holding what a read of it finds: nothing, a read error,
 * an empty file, bytes that do not decode, or a decoded list.
 */
module Config {
  import opened Wrappers

  datatype ConnectionConfig = ConnectionConfig(name: string, host: string, port: string)

  /** What reading the connections file finds. */
  datatype ConfigFile =
    | Absent                               // the file does not exist
    | Unreadable                           // any other read error
    | Empty                                // the file exists and holds no bytes
    | Malformed                            // bytes that do not decode as a list of connections
    | Stored(connections: seq<ConnectionConfig>)

  datatype ConfigError =
    | ReadFailed
    | DecodeFailed
    | DuplicateName(name: string)          // "connection with name '%s' already exists"
    | NotFound(name: string)               // "connection '%s' not found"
    | NameRequired                         // "Connection Name is required"
    | DirectoryFailed                      // os.MkdirAll of ~/.redicli fails
    | WriteFailed                          // os.WriteFile fails

  /**
   * The list `GetConnections` reads: an absent file is the empty list, and any
   * other read error or an undecodable file (an empty one included) is an error.
   */
  function ReadConnections(file: ConfigFile): (r: Result<seq<ConnectionConfig>, ConfigError>)
    ensures r.Success? <==> file.Absent? || file.Stored?
    ensures file.Absent? ==> r == Success([])
    ensures file.Stored? ==> r == Success(file.connections)
  {
    match file
    case Absent => Success([])
    case Unreadable => Failure(ReadFailed)
    case Empty => Failure(DecodeFailed)
    case Malformed => Failure(DecodeFailed)
    case Stored(cs) => Success(cs)
  }

  /**
   * The list `saveConnection` starts from: it decodes only a non-empty file, so
   * an absent and an empty file both count as no connections.
   */
  function ExistingConnections(file: ConfigFile): (r: Result<seq<ConnectionConfig>, ConfigError>)
    ensures r.Success? <==> file.Absent? || file.Empty? || file.Stored?
    ensures file.Absent? || file.Empty? ==> r == Success([])
    ensures file.Stored? ==> r == Success(file.connections)
  {
    match file
    case Absent => Success([])
    case Unreadable => Failure(ReadFailed)
    case Empty => Success([])
    case Malformed => Failure(DecodeFailed)
    case Stored(cs) => Success(cs)
  }

  /** An empty file is saved onto, but `GetConnections` reports it as undecodable. */
  lemma EmptyFileReadsDiffer()
    ensures ExistingConnections(Empty) == Success([])
    ensures ReadConnections(Empty) == Failure(DecodeFailed)
  {
  }

  // ---------------------------------------------------------------------------
  // Names

  predicate HasName(cs: seq<ConnectionConfig>, name: string) {
    exists i :: 0 <= i < |cs| && cs[i].name == name
  }

  predicate NamesUnique(cs: seq<ConnectionConfig>) {
    forall i, j :: 0 <= i < j < |cs| ==> cs[i].name != cs[j].name
  }

  /** The position of the first entry called `name`, or |cs| when there is none. */
  function FirstNamed(cs: seq<ConnectionConfig>, name: string): (i: nat)
    ensures i <= |cs|
    ensures i < |cs| ==> cs[i].name == name
    ensures forall j :: 0 <= j < i ==> cs[j].name != name
  {
    if cs == [] then 0
    else if cs[0].name == name then 0
    else 1 + FirstNamed(cs[1..], name)
  }

  /** The first entry called `name`, if any. */
  function Lookup(cs: seq<ConnectionConfig>, name: string): (r: Option<ConnectionConfig>)
    ensures r.Some? <==> HasName(cs, name)
    ensures r.Some? ==> r.value in cs && r.value.name == name
    ensures r.Some? ==> FirstNamed(cs, name) < |cs| && r.value == cs[FirstNamed(cs, name)]
  {
    var i := FirstNamed(cs, name);
    if i < |cs| then Some(cs[i]) else None
  }

  /** The entry found is the one at the first position holding the name, whatever comes later. */
  lemma LookupFindsFirst(cs: seq<ConnectionConfig>, name: string, i: int)
    requires 0 <= i < |cs| && cs[i].name == name
    requires forall j :: 0 <= j < i ==> cs[j].name != name
    ensures Lookup(cs, name) == Some(cs[i])
  {
    var k := FirstNamed(cs, name);
    assert k <= i;
    assert k < |cs| ==> cs[k].name == name;
  }

  // ---------------------------------------------------------------------------
  // saveConnection

  /** The list after saving `config` onto `cs`: refused when the name is taken, else appended. */
  function Appended(cs: seq<ConnectionConfig>, config: ConnectionConfig): Result<seq<ConnectionConfig>, ConfigError> {
    if HasName(cs, config.name) then Failure(DuplicateName(config.name)) else Success(cs + [config])
  }

  /**
   * The outcome of `saveConnection` on `file`: the directory is created first,
   * then the existing list is read and the name checked, and finally the new
   * list is written. The list is what the file then holds.
   */
  function SaveOutcome(file: ConfigFile, config: ConnectionConfig, canCreateDir: bool, canWrite: bool)
    : (r: Result<seq<ConnectionConfig>, ConfigError>)
    ensures !canCreateDir ==> r == Failure(DirectoryFailed)
    ensures r.Success? <==>
      canCreateDir && canWrite && ExistingConnections(file).Success?
      && !HasName(ExistingConnections(file).value, config.name)
    ensures r.Success? ==> r.value == ExistingConnections(file).value + [config]
    ensures canCreateDir && ExistingConnections(file).Failure? ==> r == Failure(ExistingConnections(file).error)
    ensures canCreateDir && ExistingConnections(file).Success? && HasName(ExistingConnections(file).value, config.name)
      ==> r == Failure(DuplicateName(config.name))
    ensures (canCreateDir && ExistingConnections(file).Success? && !HasName(ExistingConnections(file).value, config.name)
      && !canWrite) ==> r == Failure(WriteFailed)
  {
    if !canCreateDir then Failure(DirectoryFailed)
    else match ExistingConnections(file)
      case Failure(e) => Failure(e)
      case Success(cs) =>
        match Appended(cs, config)
        case Failure(e) => Failure(e)
        case Success(next) => if canWrite then Success(next) else Failure(WriteFailed)
  }

  /** A save refuses a taken name and otherwise keeps every earlier entry, in order, before the new one. */
  lemma SaveAppends(cs: seq<ConnectionConfig>, config: ConnectionConfig)
    ensures Appended(cs, config).Failure? <==> exists c :: c in cs && c.name == config.name
    ensures Appended(cs, config).Failure? ==> Appended(cs, config).error == DuplicateName(config.name)
    ensures Appended(cs, config).Success? ==>
      var next := Appended(cs, config).value;
      |next| == |cs| + 1 && next[..|cs|] == cs && next[|cs|] == config
  {
    if Appended(cs, config).Success? {
      assert (cs + [config])[..|cs|] == cs;
    }
    if exists c :: c in cs && c.name == config.name {
      var c :| c in cs && c.name == config.name;
      var i :| 0 <= i < |cs| && cs[i] == c;
    }
  }

  /** Saving keeps the names unique. */
  lemma SaveKeepsNamesUnique(cs: seq<ConnectionConfig>, config: ConnectionConfig)
    requires NamesUnique(cs)
    ensures Appended(cs, config).Success? ==> NamesUnique(Appended(cs, config).value)
  {
    if Appended(cs, config).Success? {
      var next := cs + [config];
      forall i, j | 0 <= i < j < |next|
        ensures next[i].name != next[j].name
      {
        if j == |cs| {
          assert next[i] == cs[i];
        } else {
          assert next[i] == cs[i] && next[j] == cs[j];
        }
      }
    }
  }

  /** After a save, looking the new name up finds the new entry. */
  lemma {:induction false} SaveThenFind(cs: seq<ConnectionConfig>, config: ConnectionConfig)
    requires Appended(cs, config).Success?
    ensures Lookup(Appended(cs, config).value, config.name) == Some(config)
    decreases |cs|
  {
    if cs != [] {
      SaveThenFind(cs[1..], config);
      assert (cs + [config])[1..] == cs[1..] + [config];
      assert cs[0] in cs;
    }
  }

  /** A save does not change what any other name looks up to. */
  lemma {:induction false} SaveKeepsOtherLookups(cs: seq<ConnectionConfig>, config: ConnectionConfig, name: string)
    requires name != config.name
    ensures Lookup(cs + [config], name) == Lookup(cs, name)
    decreases |cs|
  {
    if cs != [] {
      SaveKeepsOtherLookups(cs[1..], config, name);
      assert (cs + [config])[1..] == cs[1..] + [config];
    }
  }

  // ---------------------------------------------------------------------------
  // The form's checks and defaults

  const DefaultHost := "localhost"
  const DefaultPort := "6379"

  /**
   * The "Save & Connect" handler before saving: a name is required, an empty
   * host becomes `localhost` and an empty port `6379`.
   */
  function FormConfig(name: string, host: string, port: string): (r: Result<ConnectionConfig, ConfigError>)
    ensures r.Failure? <==> name == ""
    ensures r.Failure? ==> r.error == NameRequired
    ensures r.Success? ==> r.value.name == name && r.value.host != "" && r.value.port != ""
    ensures r.Success? && host != "" ==> r.value.host == host
    ensures r.Success? && host == "" ==> r.value.host == DefaultHost
    ensures r.Success? && port != "" ==> r.value.port == port
    ensures r.Success? && port == "" ==> r.value.port == DefaultPort
  {
    if name == "" then Failure(NameRequired)
    else
      var h := if host == "" then DefaultHost else host;
      var p := if port == "" then DefaultPort else port;
      Success(ConnectionConfig(name, h, p))
  }

  /** Submitting the defaulted fields again gives the same configuration. */
  lemma FormDefaultsSettle(name: string, host: string, port: string)
    requires FormConfig(name, host, port).Success?
    ensures var c := FormConfig(name, host, port).value;
      FormConfig(c.name, c.host, c.port) == Success(c)
  {
  }

  // ---------------------------------------------------------------------------
  // FormatConnectionsList

  const NoConnectionsText := "[yellow]No saved connections found[white]"
  const ListTitle := "[yellow]Saved Redis Connections:[white]"
  const ListHeader := ListTitle + "\n"

  function ListLine(c: ConnectionConfig): string {
    "• [green]" + c.name + "[white]: " + c.host + ":" + c.port + "\n"
  }

  /** One line per connection, in list order. */
  function ListLines(cs: seq<ConnectionConfig>): string
    decreases |cs|
  {
    if cs == [] then "" else ListLines(cs[..|cs| - 1]) + ListLine(cs[|cs| - 1])
  }

  /** The text `FormatConnectionsList` builds. */
  function FormattedList(cs: seq<ConnectionConfig>): string {
    if cs == [] then NoConnectionsText else ListHeader + ListLines(cs)
  }

  /** The number of times `c` occurs in `s`. */
  function Count(s: string, c: char): nat
    decreases |s|
  {
    if s == [] then 0 else Count(s[..|s| - 1], c) + (if s[|s| - 1] == c then 1 else 0)
  }

  predicate SingleLine(s: string) {
    '\n' !in s
  }

  predicate FieldsSingleLine(c: ConnectionConfig) {
    SingleLine(c.name) && SingleLine(c.host) && SingleLine(c.port)
  }

  lemma LineHasOneNewline(c: ConnectionConfig)
    requires FieldsSingleLine(c)
    ensures Count(ListLine(c), '\n') == 1
  {
    var nameText := "• [green]" + c.name;
    var hostText := nameText + "[white]: " + c.host;
    var body := hostText + ":" + c.port;
    LiteralHasNoNewline("• [green]");
    LiteralHasNoNewline(c.name);
    CountConcat("• [green]", c.name, '\n');
    LiteralHasNoNewline("[white]: ");
    CountConcat(nameText, "[white]: ", '\n');
    LiteralHasNoNewline(c.host);
    CountConcat(nameText + "[white]: ", c.host, '\n');
    LiteralHasNoNewline(":");
    CountConcat(hostText, ":", '\n');
    LiteralHasNoNewline(c.port);
    CountConcat(hostText + ":", c.port, '\n');
    CountLineBreak(body);
    assert ListLine(c) == body + "\n";
  }

  lemma {:induction false} CountConcat(a: string, b: string, c: char)
    ensures Count(a + b, c) == Count(a, c) + Count(b, c)
    decreases |b|
  {
    if b == [] {
      assert a + b == a;
    } else {
      var init := b[..|b| - 1];
      CountConcat(a, init, c);
      assert (a + b)[..|a + b| - 1] == a + init;
    }
  }

  lemma CountLineBreak(s: string)
    ensures Count(s + "\n", '\n') == Count(s, '\n') + 1
  {
    assert (s + "\n")[..|s|] == s;
  }

  /** A piece of text without a line break counts none. */
  lemma {:induction false} LiteralHasNoNewline(s: string)
    requires '\n' !in s
    ensures Count(s, '\n') == 0
    decreases |s|
  {
    if s != [] {
      LiteralHasNoNewline(s[..|s| - 1]);
    }
  }

  /**
   * When no field holds a line break, the list is the header line and exactly
   * one line per connection; the empty list is the one line without a break.
   */
  lemma {:induction false} FormattedLineCount(cs: seq<ConnectionConfig>)
    requires forall i :: 0 <= i < |cs| ==> FieldsSingleLine(cs[i])
    ensures Count(FormattedList(cs), '\n') == if cs == [] then 0 else |cs| + 1
  {
    if cs == [] {
      LiteralHasNoNewline(NoConnectionsText);
    } else {
      LinesNewlineCount(cs);
      HeaderThenLines(cs);
    }
  }

  lemma HeaderThenLines(cs: seq<ConnectionConfig>)
    requires cs != []
    ensures Count(FormattedList(cs), '\n') == 1 + Count(ListLines(cs), '\n')
  {
    HeaderHasOneNewline();
    CountConcat(ListHeader, ListLines(cs), '\n');
  }

  lemma HeaderHasOneNewline()
    ensures Count(ListHeader, '\n') == 1
  {
    LiteralHasNoNewline(ListTitle);
    CountLineBreak(ListTitle);
  }

  lemma {:induction false} LinesNewlineCount(cs: seq<ConnectionConfig>)
    requires forall i :: 0 <= i < |cs| ==> FieldsSingleLine(cs[i])
    ensures Count(ListLines(cs), '\n') == |cs|
    decreases |cs|
  {
    if cs != [] {
      var init := cs[..|cs| - 1];
      LinesNewlineCount(init);
      LineHasOneNewline(cs[|cs| - 1]);
      CountConcat(ListLines(init), ListLine(cs[|cs| - 1]), '\n');
    }
  }

  /** The list begins with the header, then the first connection's line. */
  lemma {:induction false} ListStartsWithFirst(cs: seq<ConnectionConfig>)
    requires cs != []
    ensures ListLines(cs) == ListLine(cs[0]) + ListLines(cs[1..])
    decreases |cs|
  {
    if |cs| > 1 {
      var init := cs[..|cs| - 1];
      ListStartsWithFirst(init);
      assert init[1..] == cs[1..][..|cs| - 2];
      assert cs[1..][|cs| - 2] == cs[|cs| - 1];
    } else {
      assert cs[1..] == [];
    }
  }

  /**
   * `FormatConnectionsList`: the fixed line for no connections, otherwise the
   * header and then one line per connection.
   */
  method FormatConnectionsList(cs: seq<ConnectionConfig>) returns (s: string)
    ensures s == FormattedList(cs)
  {
    if |cs| == 0 {
      return NoConnectionsText;
    }
    var builder := ListHeader;
    for i := 0 to |cs|
      invariant builder == ListHeader + ListLines(cs[..i])
    {
      assert cs[..i + 1][..i] == cs[..i];
      builder := builder + ListLine(cs[i]);
    }
    assert cs[..|cs|] == cs;
    s := builder;
  }

  // ---------------------------------------------------------------------------
  // The store

  class ConnectionStore {
    var file: ConfigFile
    var canCreateDir: bool   // os.MkdirAll of the directory succeeds
    var canWrite: bool       // os.WriteFile of the file succeeds

    constructor (file: ConfigFile, canCreateDir: bool, canWrite: bool)
      ensures this.file == file && this.canCreateDir == canCreateDir && this.canWrite == canWrite
    {
      this.file := file;
      this.canCreateDir := canCreateDir;
      this.canWrite := canWrite;
    }

    /** `GetConnections`: the decoded list, the empty list for an absent file, or the error. */
    method GetConnections() returns (r: Result<seq<ConnectionConfig>, ConfigError>)
      ensures r == ReadConnections(file)
    {
      r := ReadConnections(file);
    }

    /** `FindConnectionByName`: the first entry with the name, or why there is none. */
    method FindConnectionByName(name: string) returns (r: Result<ConnectionConfig, ConfigError>)
      ensures ReadConnections(file).Failure? ==> r == Failure(ReadConnections(file).error)
      ensures ReadConnections(file).Success? ==>
        match Lookup(ReadConnections(file).value, name)
        case Some(c) => r == Success(c)
        case None => r == Failure(NotFound(name))
    {
      var read := GetConnections();
      if read.Failure? {
        return Failure(read.error);
      }
      var connections := read.value;
      for i := 0 to |connections|
        invariant FirstNamed(connections, name) >= i
      {
        if connections[i].name == name {
          return Success(connections[i]);
        }
      }
      r := Failure(NotFound(name));
    }

    /**
     * `saveConnection`: refuses when the directory cannot be created, the file
     * cannot be read or decoded, the name is taken or the write fails, leaving
     * the file as it was; otherwise stores the list with the new entry appended.
     */
    method SaveConnection(config: ConnectionConfig) returns (r: Result<(), ConfigError>)
      modifies this`file
      ensures var outcome := SaveOutcome(old(file), config, canCreateDir, canWrite);
        && (outcome.Failure? ==> r == Failure(outcome.error) && file == old(file))
        && (outcome.Success? ==> r == Success(()) && file == Stored(outcome.value))
    {
      if !canCreateDir {
        return Failure(DirectoryFailed);
      }
      var connections: seq<ConnectionConfig>;
      match file {
        case Absent => connections := [];
        case Unreadable => return Failure(ReadFailed);
        case Empty => connections := [];
        case Malformed => return Failure(DecodeFailed);
        case Stored(cs) => connections := cs;
      }
      for i := 0 to |connections|
        invariant forall j :: 0 <= j < i ==> connections[j].name != config.name
      {
        if connections[i].name == config.name {
          assert HasName(connections, config.name);
          return Failure(DuplicateName(config.name));
        }
      }
      if !canWrite {
        return Failure(WriteFailed);
      }
      file := Stored(connections + [config]);
      r := Success(());
    }

    /**
     * The "Save & Connect" handler up to the save: a missing name stops it
     * before the file is touched; otherwise the defaulted configuration is saved.
     */
    method SubmitForm(name: string, host: string, port: string) returns (r: Result<ConnectionConfig, ConfigError>)
      modifies this`file
      ensures name == "" ==> r == Failure(NameRequired) && file == old(file)
      ensures name != "" ==>
        var config := FormConfig(name, host, port).value;
        var outcome := SaveOutcome(old(file), config, canCreateDir, canWrite);
        && (outcome.Failure? ==> r == Failure(outcome.error) && file == old(file))
        && (outcome.Success? ==> r == Success(config) && file == Stored(outcome.value))
    {
      if name == "" {
        return Failure(NameRequired);
      }
      var h := host;
      if h == "" {
        h := DefaultHost;
      }
      var p := port;
      if p == "" {
        p := DefaultPort;
      }
      var config := ConnectionConfig(name, h, p);
      var saved := SaveConnection(config);
      if saved.Failure? {
        return Failure(saved.error);
      }
      r := Success(config);
    }
  }
}
