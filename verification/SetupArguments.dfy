/** The command line of the setup script. */
module SetupArguments {
  import opened Strings

  const INSTALL := Lit("--install")
  const INSTALL_CLI := Lit("--install-cli")
  const INSTALL_EXTENSION := Lit("--install-extension")
  const HELP := Lit("--help")
  const PLATFORM := Lit("--platform=")
  const PROJECT := Lit("--project")

  datatype Options = Options(
    platform: Option<Text>, project: Option<Text>, installCli: bool, installExtension: bool, help: bool)

  const NOTHING := Options(None, None, false, false, false)

  predicate Dashed(arg: Text) {
    StartsWith(arg, [MINUS])
  }

  predicate DoubleDashed(arg: Text) {
    StartsWith(arg, [MINUS, MINUS])
  }

  /** The branches of `parseSetupArguments` for an argument that stands alone. */
  function Single(arg: Text, o: Options): Option<Options> {
    if arg == INSTALL then Some(o.(installCli := true, installExtension := true))
    else if arg == INSTALL_CLI then Some(o.(installCli := true))
    else if arg == INSTALL_EXTENSION then Some(o.(installExtension := true))
    else if arg == HELP then Some(o.(help := true))
    else if StartsWith(arg, PLATFORM) then Some(o.(platform := Some(arg[|PLATFORM|..])))
    else if arg != PROJECT && !Dashed(arg) && o.project.None? then Some(o.(project := Some(arg)))
    else None
  }

  predicate ProjectValue(arg: Text) {
    arg != [] && !DoubleDashed(arg)
  }

  /** The options after the arguments, starting from `o`; none where the script throws. */
  function ParseFrom(args: seq<Text>, o: Options): Option<Options>
    decreases |args|
  {
    if args == [] then Some(o)
    else if args[0] == PROJECT then
      if |args| > 1 && ProjectValue(args[1]) then ParseFrom(args[2..], o.(project := Some(args[1]))) else None
    else
      match Single(args[0], o)
      case None => None
      case Some(next) => ParseFrom(args[1..], next)
  }

  /** `parseSetupArguments`: the loop, which takes one more argument after `--project`. */
  method ParseSetupArguments(args: seq<Text>) returns (r: Option<Options>)
    ensures r == ParseFrom(args, NOTHING)
  {
    hide Single, ProjectValue;
    var result := NOTHING;
    var index := 0;
    assert args[0..] == args;
    while index < |args|
      invariant 0 <= index <= |args|
      invariant ParseFrom(args, NOTHING) == ParseFrom(args[index..], result)
    {
      var arg, rest := args[index], args[index..];
      assert rest[1..] == args[index + 1..];
      if arg == PROJECT {
        index := index + 1;
        if index >= |args| || !ProjectValue(args[index]) {
          return None;
        }
        assert rest[2..] == args[index + 1..];
        result := result.(project := Some(args[index]));
      } else {
        var next := Single(arg, result);
        if next.None? {
          return None;
        }
        result := next.value;
      }
      index := index + 1;
    }
    return Some(result);
  }

  // ------------------------------------------------------------ the grammar

  /** What a user can say, one item at a time. */
  datatype Item =
    | Install | InstallCli | InstallExtension | Help
    | Platform(name: Text) | Project(path: Text) | Folder(path: Text)

  function Words(item: Item): seq<Text> {
    match item
    case Install => [Lit("--install")]
    case InstallCli => [Lit("--install-cli")]
    case InstallExtension => [Lit("--install-extension")]
    case Help => [Lit("--help")]
    case Platform(name) => [Lit("--platform=") + name]
    case Project(path) => [Lit("--project"), path]
    case Folder(path) => [path]
  }

  function Line(items: seq<Item>): seq<Text> {
    if items == [] then [] else Words(items[0]) + Line(items[1..])
  }

  /** A project is named by a text that is not empty and does not start with two hyphens. A folder on its own does not
      start with a hyphen; it may be named once, and only before any `--project`; `--project` may be repeated. */
  ghost predicate Sensible(items: seq<Item>) {
    && (forall i :: 0 <= i < |items| && items[i].Project? ==>
          items[i].path != [] && !(|items[i].path| >= 2 && items[i].path[0] == 45 && items[i].path[1] == 45))
    && (forall i :: 0 <= i < |items| && items[i].Folder? ==> !(items[i].path != [] && items[i].path[0] == 45))
    && (forall i, j :: 0 <= i < j < |items| && items[j].Folder? ==> !items[i].Folder? && !items[i].Project?)
  }

  /** What the items ask for; of a repeated setting the last counts. */
  function Meaning(items: seq<Item>, o: Options): Options {
    if items == [] then o else Meaning(items[1..], Applied(items[0], o))
  }

  function Applied(item: Item, o: Options): Options {
    match item
    case Install => o.(installCli := true, installExtension := true)
    case InstallCli => o.(installCli := true)
    case InstallExtension => o.(installExtension := true)
    case Help => o.(help := true)
    case Platform(name) => o.(platform := Some(name))
    case Project(path) => o.(project := Some(path))
    case Folder(path) => o.(project := Some(path))
  }

  /** Sensible when a project is already named or not. */
  ghost predicate SensibleAfter(items: seq<Item>, named: bool) {
    Sensible(items) && (named ==> forall i :: 0 <= i < |items| ==> !items[i].Folder?)
  }

  lemma WordsDiffer()
    ensures Dashed(INSTALL) && Dashed(INSTALL_CLI) && Dashed(INSTALL_EXTENSION) && Dashed(HELP) && Dashed(PROJECT)
    ensures |INSTALL| == 9 == |PROJECT| && |INSTALL_CLI| == 13 && |INSTALL_EXTENSION| == 19 && |HELP| == 6 &&
            |PLATFORM| == 11
    ensures INSTALL[2] != PROJECT[2]
    ensures Dashed(PLATFORM) && INSTALL_CLI[2] != PLATFORM[2] && INSTALL_EXTENSION[2] != PLATFORM[2] && |PLATFORM| > 2
  {
  }

  lemma PlatformWord(name: Text)
    ensures StartsWith(PLATFORM + name, PLATFORM) && (PLATFORM + name)[|PLATFORM|..] == name
    ensures (PLATFORM + name)[2] == PLATFORM[2] && Dashed(PLATFORM + name)
  {
    WordsDiffer();
  }

  /** One item is read as one step. */
  lemma ReadItem(item: Item, rest: seq<Text>, o: Options)
    requires SensibleAfter([item], o.project.Some?)
    ensures ParseFrom(Words(item) + rest, o) == ParseFrom(rest, Applied(item, o))
  {
    var args := Words(item) + rest;
    assert args[|Words(item)|..] == rest;
    WordsDiffer();
    assert [item][0] == item;
    match item
    case Platform(name) => PlatformWord(name);
    case Folder(path) => assert path != INSTALL && path != INSTALL_CLI && path != INSTALL_EXTENSION;
                         PlatformNotFolder(path);
    case _ =>
  }

  lemma PlatformNotFolder(path: Text)
    requires !Dashed(path)
    ensures !StartsWith(path, PLATFORM)
  {
    if StartsWith(path, PLATFORM) {
      assert path == PLATFORM + path[|PLATFORM|..];
      PlatformWord(path[|PLATFORM|..]);
    }
  }

  /** What is sensible is read as what it means. */
  lemma {:induction false} LineParses(items: seq<Item>, o: Options)
    requires SensibleAfter(items, o.project.Some?)
    ensures ParseFrom(Line(items), o) == Some(Meaning(items, o))
  {
    hide ParseFrom, ProjectValue, Dashed, Words;
    if items == [] {
      ParseNothing(o);
    } else {
      assert [items[0]][0] == items[0];
      ReadItem(items[0], Line(items[1..]), o);
      assert forall i :: 0 <= i < |items[1..]| ==> items[1..][i] == items[i + 1];
      LineParses(items[1..], Applied(items[0], o));
    }
  }

  lemma ParseNothing(o: Options)
    ensures ParseFrom([], o) == Some(o)
  {
  }

  lemma PathsExactly(path: Text)
    ensures ProjectValue(path) <==> path != [] && !(|path| >= 2 && path[0] == 45 && path[1] == 45)
    ensures Dashed(path) <==> path != [] && path[0] == 45
  {
    if |path| >= 2 {
      assert path[..2] == [path[0], path[1]];
    }
    if path != [] {
      assert path[..1] == [path[0]];
    }
  }

  /** The item an accepted argument list starts with. */
  lemma FirstItem(args: seq<Text>, o: Options) returns (item: Item)
    requires args != [] && ParseFrom(args, o).Some?
    ensures |Words(item)| <= |args| && args == Words(item) + args[|Words(item)|..] &&
            SensibleAfter([item], o.project.Some?)
  {
    hide ProjectValue, Dashed;
    var arg := args[0];
    PathsExactly(arg);
    if |args| > 1 {
      PathsExactly(args[1]);
    }
    assert args == [arg] + args[1..];
    if arg == PROJECT {
      item := Project(args[1]);
      assert args == [arg, args[1]] + args[2..];
    } else if arg == INSTALL {
      item := Install;
    } else if arg == INSTALL_CLI {
      item := InstallCli;
    } else if arg == INSTALL_EXTENSION {
      item := InstallExtension;
    } else if arg == HELP {
      item := Help;
    } else if StartsWith(arg, PLATFORM) {
      item := Platform(arg[|PLATFORM|..]);
      assert arg == PLATFORM + arg[|PLATFORM|..];
    } else {
      item := Folder(arg);
    }
  }

  /** What is accepted was sensible. */
  lemma {:induction false} ParsedIsLine(args: seq<Text>, o: Options) returns (items: seq<Item>)
    requires ParseFrom(args, o).Some?
    ensures SensibleAfter(items, o.project.Some?) && Line(items) == args
    decreases |args|
  {
    hide ParseFrom, ProjectValue, Dashed, Words, Applied;
    items := [];
    if args != [] {
      var item := FirstItem(args, o);
      assert [item][0] == item;
      var size := |Words(item)|;
      ReadItem(item, args[size..], o);
      WordsNotEmpty(item);
      AppliedNames(item, o);
      var rest := ParsedIsLine(args[size..], Applied(item, o));
      items := [item] + rest;
      assert items[1..] == rest;
      assert forall i :: 1 <= i < |items| ==> items[i] == rest[i - 1];
    }
  }

  lemma WordsNotEmpty(item: Item)
    ensures Words(item) != []
  {
  }

  lemma AppliedNames(item: Item, o: Options)
    ensures Applied(item, o).project.Some? <==> o.project.Some? || item.Project? || item.Folder?
  {
  }

  /** Main result: accepted are exactly the lines of sensible items, and each is read as what it means. */
  lemma ParseExact(args: seq<Text>, o: Options)
    ensures ParseFrom(args, NOTHING) == Some(o) <==>
            exists items :: Sensible(items) && Line(items) == args && Meaning(items, NOTHING) == o
  {
    hide ParseFrom, Sensible, Line, Meaning;
    if ParseFrom(args, NOTHING) == Some(o) {
      var items := ParsedIsLine(args, NOTHING);
      LineParses(items, NOTHING);
    }
    if items :| Sensible(items) && Line(items) == args && Meaning(items, NOTHING) == o {
      LineParses(items, NOTHING);
    }
  }

  /** Main result: in an accepted line the switches count wherever they stand, and nothing but they sets them; a path
      cannot be mistaken for one. */
  lemma {:induction false} SwitchesAnywhere(args: seq<Text>, o: Options)
    requires ParseFrom(args, o).Some?
    ensures var r := ParseFrom(args, o).value;
            && (r.installCli <==> o.installCli || Lit("--install") in args || Lit("--install-cli") in args)
            && (r.installExtension <==>
                o.installExtension || Lit("--install") in args || Lit("--install-extension") in args)
            && (r.help <==> o.help || Lit("--help") in args)
    decreases |args|
  {
    hide StartsWith;
    if args != [] {
      SwitchesDiffer();
      assert args == [args[0]] + args[1..];
      if args[0] == PROJECT {
        assert args[1..] == [args[1]] + args[2..];
        SwitchesAnywhere(args[2..], o.(project := Some(args[1])));
      } else {
        SwitchesAnywhere(args[1..], Single(args[0], o).value);
      }
    }
  }

  lemma SwitchesDiffer()
    ensures DoubleDashed(INSTALL) && DoubleDashed(INSTALL_CLI) && DoubleDashed(INSTALL_EXTENSION) && DoubleDashed(HELP)
    ensures INSTALL != PROJECT && INSTALL_CLI != PROJECT && INSTALL_EXTENSION != PROJECT && HELP != PROJECT
    ensures INSTALL != INSTALL_CLI && INSTALL != INSTALL_EXTENSION && INSTALL != HELP
    ensures INSTALL_CLI != INSTALL_EXTENSION && INSTALL_CLI != HELP && INSTALL_EXTENSION != HELP
    ensures !StartsWith(INSTALL, PLATFORM) && !StartsWith(HELP, PLATFORM)
  {
    WordsDiffer();
  }
}
