/** The command-line parser. */
module CliArgs {
  import opened Options
  import opened Seqs
  import opened Text

  datatype Mode = Task | Autonomous | Daemon
  datatype Action = Login | Status | Logout

  datatype Command = Work(mode: Mode, goal: string) | Auth(action: Action, deviceAuth: bool, profileId: Option<string>)

  datatype Failure =
    | HelpRequested
    | NoGoal
    | ModesCombined
    | UnknownFlag(token: string)
    | UnsupportedProvider
    | UnsupportedAction
    | MissingProfileValue
    | UnexpectedArgument(token: string)

  datatype Parsed = Ok(command: Command) | Fail(failure: Failure)

  const AUTONOMOUS_FLAG := "--autonomous"
  const DAEMON_FLAG := "--daemon"
  const DEVICE_AUTH_FLAG := "--device-auth"
  const PROFILE_FLAG := "--profile"

  function LowerChar(c: char): char {
    if 'A' <= c <= 'Z' then 'a' + (c - 'A') else c
  }

  function LowerCase(s: string): string {
    seq(|s|, i requires 0 <= i < |s| => LowerChar(s[i]))
  }

  function Word(arg: string): string {
    LowerCase(Trim(arg))
  }

  function At(args: seq<string>, i: nat): string {
    if i < |args| then args[i] else ""
  }

  predicate AsksHelp(args: seq<string>) {
    "--help" in args || "-h" in args
  }

  predicate IsFlag(token: string) {
    token != "" && token[0] == '-'
  }

  function ActionOf(word: string): Option<Action> {
    if word == "login" then Some(Login) else if word == "status" then Some(Status)
    else if word == "logout" then Some(Logout) else None
  }

  // ----- Task, autonomous and daemon commands

  /** The scan over the arguments: what it has collected, or the failure it returned with. */
  datatype Scan = Collected(mode: Mode, goalTokens: seq<string>) | Rejected(failure: Failure)

  function ScanToken(mode: Mode, goalTokens: seq<string>, token: string): Scan {
    if token == "" then Collected(mode, goalTokens)
    else if token == AUTONOMOUS_FLAG then
      if mode.Daemon? then Rejected(ModesCombined) else Collected(Autonomous, goalTokens)
    else if token == DAEMON_FLAG then
      if mode.Autonomous? then Rejected(ModesCombined) else Collected(Daemon, goalTokens)
    else if IsFlag(token) then Rejected(UnknownFlag(token))
    else Collected(mode, goalTokens + [token])
  }

  function ScanArgs(args: seq<string>): Scan {
    if args == [] then Collected(Task, [])
    else
      var before := ScanArgs(args[..|args| - 1]);
      if before.Rejected? then before else ScanToken(before.mode, before.goalTokens, Trim(args[|args| - 1]))
  }

  function ParseWork(args: seq<string>): Parsed {
    match ScanArgs(args)
    case Rejected(failure) => Fail(failure)
    case Collected(mode, goalTokens) => if goalTokens == [] then Fail(NoGoal) else Ok(Work(mode, Join(goalTokens, " ")))
  }

  // ----- Auth commands

  function ParseAuthOptions(args: seq<string>, action: Action, deviceAuth: bool, profileId: Option<string>): Parsed {
    if args == [] then Ok(Auth(action, deviceAuth, profileId))
    else
      var token := Trim(args[0]);
      if token == "" then ParseAuthOptions(args[1..], action, deviceAuth, profileId)
      else if token == DEVICE_AUTH_FLAG then ParseAuthOptions(args[1..], action, true, profileId)
      else if token == PROFILE_FLAG then
        var value := Trim(At(args, 1));
        if value == "" then Fail(MissingProfileValue) else ParseAuthOptions(args[2..], action, deviceAuth, Some(value))
      else if IsFlag(token) then Fail(UnknownFlag(token))
      else Fail(UnexpectedArgument(token))
  }

  function ParseAuth(args: seq<string>): Parsed {
    if Word(At(args, 0)) != "codex" then Fail(UnsupportedProvider)
    else
      var action := ActionOf(Word(At(args, 1)));
      if action.None? then Fail(UnsupportedAction) else ParseAuthOptions(args[2..], action.value, false, None)
  }

  function Parse(args: seq<string>): Parsed {
    if AsksHelp(args) then Fail(HelpRequested)
    else if Word(At(args, 0)) == "auth" then ParseAuth(args[1..])
    else ParseWork(args)
  }

  // ----- The two loops

  method ParseCliArgs(args: seq<string>) returns (parsed: Parsed)
    ensures parsed == Parse(args)
  {
    EmptyWord();
    if AsksHelp(args) {
      return Fail(HelpRequested);
    }
    if |args| > 0 && Word(args[0]) == "auth" {
      parsed := ParseAuthCliArgs(args[1..]);
      return;
    }
    var mode := Task;
    var goalTokens: seq<string> := [];
    for i := 0 to |args|
      invariant ScanArgs(args[..i]) == Collected(mode, goalTokens)
    {
      assert args[..i + 1][..i] == args[..i];
      RejectedStays(args, i + 1);
      var token := Trim(args[i]);
      if token == "" {
        continue;
      }
      if token == AUTONOMOUS_FLAG {
        if mode.Daemon? {
          return Fail(ModesCombined);
        }
        mode := Autonomous;
        continue;
      }
      if token == DAEMON_FLAG {
        if mode.Autonomous? {
          return Fail(ModesCombined);
        }
        mode := Daemon;
        continue;
      }
      if IsFlag(token) {
        return Fail(UnknownFlag(token));
      }
      goalTokens := goalTokens + [token];
    }
    assert args[..|args|] == args;
    if goalTokens == [] {
      return Fail(NoGoal);
    }
    GoalTokensAreWords(args);
    JoinOfWords(goalTokens);
    var goal := Trim(Join(goalTokens, " "));
    TrimOfTrimmed(Join(goalTokens, " "));
    if goal == "" {
      return Fail(NoGoal);
    }
    parsed := Ok(Work(mode, goal));
  }

  method ParseAuthCliArgs(args: seq<string>) returns (parsed: Parsed)
    ensures parsed == ParseAuth(args)
  {
    EmptyWord();
    if |args| == 0 || Word(args[0]) != "codex" {
      return Fail(UnsupportedProvider);
    }
    if |args| == 1 || ActionOf(Word(args[1])).None? {
      return Fail(UnsupportedAction);
    }
    parsed := ReadAuthOptions(args, ActionOf(Word(args[1])).value);
  }

  /** The loop over the options of an auth command. */
  method ReadAuthOptions(args: seq<string>, action: Action) returns (parsed: Parsed)
    requires |args| >= 2
    ensures parsed == ParseAuthOptions(args[2..], action, false, None)
  {
    var deviceAuth, profileId := false, None;
    EmptyWord();
    var index := 2;
    while index < |args|
      invariant index <= |args|
      invariant ParseAuthOptions(args[index..], action, deviceAuth, profileId)
             == ParseAuthOptions(args[2..], action, false, None)
    {
      var rest := args[index..];
      assert rest[1..] == args[index + 1..];
      var token := Trim(args[index]);
      index := index + 1;
      if token == "" {
        continue;
      }
      if token == DEVICE_AUTH_FLAG {
        deviceAuth := true;
        continue;
      }
      if token != PROFILE_FLAG {
        return if IsFlag(token) then Fail(UnknownFlag(token)) else Fail(UnexpectedArgument(token));
      }
      var value := Trim(At(args, index));
      if value == "" {
        return Fail(MissingProfileValue);
      }
      assert rest[2..] == args[index + 1..];
      profileId := Some(value);
      index := index + 1;
    }
    parsed := Ok(Auth(action, deviceAuth, profileId));
  }

  lemma EmptyWord()
    ensures Word("") == "" && Trim("") == ""
  {
  }

  lemma {:induction false} RejectedStays(args: seq<string>, i: nat)
    requires i <= |args|
    ensures ScanArgs(args[..i]).Rejected? ==> ScanArgs(args) == ScanArgs(args[..i])
    decreases |args| - i
  {
    if i == |args| {
      assert args[..i] == args;
    } else {
      RejectedStays(args, i + 1);
      assert args[..i + 1][..i] == args[..i];
    }
  }

  /** A goal token: not empty, trimmed, and no flag. */
  predicate IsGoalText(s: string) {
    s != "" && IsTrimmed(s) && !IsFlag(s)
  }

  lemma {:induction false} GoalTokensAreWords(args: seq<string>)
    ensures ScanArgs(args).Collected? ==> forall t :: t in ScanArgs(args).goalTokens ==> IsGoalText(t)
  {
    if args != [] {
      GoalTokensAreWords(args[..|args| - 1]);
      var from, to := TrimSlice(args[|args| - 1]);
    }
  }

  /** Joined by spaces, goal tokens make a goal that is itself such a text: the second check of the goal never fails. */
  lemma {:induction false} JoinOfWords(tokens: seq<string>)
    requires tokens != [] && forall t :: t in tokens ==> IsGoalText(t)
    ensures IsGoalText(Join(tokens, " "))
  {
    assert tokens[0] in tokens;
    if |tokens| > 1 {
      JoinOfWords(tokens[1..]);
      var goal := Join(tokens, " ");
      assert goal == tokens[0] + " " + Join(tokens[1..], " ");
      assert goal[0] == tokens[0][0];
    }
  }

  // ----- What a successful parse means

  function Tokens(args: seq<string>): seq<string> {
    if args == [] then [] else Tokens(args[..|args| - 1]) + [Trim(args[|args| - 1])]
  }

  function GoalWords(tokens: seq<string>): seq<string> {
    if tokens == [] then []
    else
      var last := tokens[|tokens| - 1];
      GoalWords(tokens[..|tokens| - 1]) + if last == "" || last[0] == '-' then [] else [last]
  }

  ghost predicate KnownToken(token: string) {
    token != "" && token[0] == '-' ==> token == "--autonomous" || token == "--daemon"
  }

  /** No unknown flag, and at most one of the two mode flags. */
  ghost predicate Acceptable(tokens: seq<string>) {
    (forall t :: t in tokens ==> KnownToken(t)) && !("--autonomous" in tokens && "--daemon" in tokens)
  }

  function ModeOf(tokens: seq<string>): Mode {
    if "--autonomous" in tokens then Autonomous else if "--daemon" in tokens then Daemon else Task
  }

  /** Where the flags stand does not matter: the scan depends on which of them occur, and on the words between them. */
  lemma {:induction false} ScanMeaning(args: seq<string>)
    ensures ScanArgs(args).Collected? <==> Acceptable(Tokens(args))
    ensures ScanArgs(args).Collected? ==> ScanArgs(args) == Collected(ModeOf(Tokens(args)), GoalWords(Tokens(args)))
  {
    if args != [] {
      var front, token := args[..|args| - 1], Trim(args[|args| - 1]);
      ScanMeaning(front);
      OneMoreToken(Tokens(front), token);
    }
  }

  lemma OneMoreToken(tokens: seq<string>, token: string)
    ensures Acceptable(tokens + [token]) <==>
              Acceptable(tokens) && ScanToken(ModeOf(tokens), GoalWords(tokens), token).Collected?
    ensures Acceptable(tokens + [token]) ==>
              ScanToken(ModeOf(tokens), GoalWords(tokens), token)
              == Collected(ModeOf(tokens + [token]), GoalWords(tokens + [token]))
  {
    var more := tokens + [token];
    assert more[|tokens|] == token;
    assert forall t :: t in more <==> t in tokens || t == token;
    assert IsFlag(AUTONOMOUS_FLAG) && IsFlag(DAEMON_FLAG) && AUTONOMOUS_FLAG != DAEMON_FLAG;
    OneMoreWord(tokens, token);
    if Acceptable(tokens) && ScanToken(ModeOf(tokens), GoalWords(tokens), token).Collected? {
      assert KnownToken(token);
      forall t | t in more ensures KnownToken(t) {
        assert t in tokens || t == token;
      }
      assert !(AUTONOMOUS_FLAG in more && DAEMON_FLAG in more);
    }
    if Acceptable(more) {
      assert Acceptable(tokens);
      assert KnownToken(token);
      assert ScanToken(ModeOf(tokens), GoalWords(tokens), token).Collected?;
    }
  }

  lemma OneMoreWord(tokens: seq<string>, token: string)
    ensures GoalWords(tokens + [token])
         == if token == "" || IsFlag(token) then GoalWords(tokens) else GoalWords(tokens) + [token]
  {
    assert (tokens + [token])[..|tokens|] == tokens;
  }

  /** The parser accepts a work command exactly when its tokens are acceptable and include a word. */
  lemma {:induction false} ParseWorkMeaning(args: seq<string>)
    ensures ParseWork(args).Ok? <==> Acceptable(Tokens(args)) && GoalWords(Tokens(args)) != []
    ensures ParseWork(args) == Fail(NoGoal) <==> Acceptable(Tokens(args)) && GoalWords(Tokens(args)) == []
    ensures ParseWork(args).Ok? ==>
              ParseWork(args).command == Work(ModeOf(Tokens(args)), Join(GoalWords(Tokens(args)), " "))
  {
    ScanMeaning(args);
    if ScanArgs(args).Rejected? {
      var i := FirstOffence(args);
    }
  }

  lemma {:induction false} LastOffends(args: seq<string>)
    requires args != [] && ScanArgs(args).Rejected? && !ScanArgs(args[..|args| - 1]).Rejected?
    ensures Acceptable(Tokens(args[..|args| - 1])) && !Acceptable(Tokens(args))
    ensures var token := Trim(args[|args| - 1]);
            ScanArgs(args).failure == if KnownToken(token) then ModesCombined else UnknownFlag(token)
  {
    ScanMeaning(args[..|args| - 1]);
    ScanMeaning(args);
  }

  /** A rejection reports the first token that makes the arguments unacceptable. */
  lemma {:induction false} FirstOffence(args: seq<string>) returns (i: nat)
    requires ScanArgs(args).Rejected?
    ensures i < |args| && Acceptable(Tokens(args[..i])) && !Acceptable(Tokens(args[..i + 1]))
    ensures var token := Trim(args[i]);
            ScanArgs(args).failure == if KnownToken(token) then ModesCombined else UnknownFlag(token)
  {
    var front := args[..|args| - 1];
    if ScanArgs(front).Rejected? {
      i := FirstOffence(front);
      assert front[..i] == args[..i] && front[..i + 1] == args[..i + 1];
    } else {
      i := |front|;
      assert args[..i + 1] == args;
      LastOffends(args);
    }
  }

  // ----- Which option lists an auth command may have

  /** The arguments of one option as they stand on the command line; blank arguments are passed over. */
  datatype AuthOption = Blank(arg: string) | Device(flag: string) | Profile(name: string, value: string)

  predicate WellSpelled(o: AuthOption) {
    match o
    case Blank(arg) => Trim(arg) == ""
    case Device(flag) => Trim(flag) == "--device-auth"
    case Profile(name, value) => Trim(name) == "--profile" && Trim(value) != ""
  }

  function ArgsOf(o: AuthOption): seq<string> {
    match o
    case Blank(arg) => [arg]
    case Device(flag) => [flag]
    case Profile(name, value) => [name, value]
  }

  function Spelled(options: seq<AuthOption>): seq<string> {
    if options == [] then [] else ArgsOf(options[0]) + Spelled(options[1..])
  }

  ghost predicate AllWellSpelled(options: seq<AuthOption>) {
    forall o :: o in options ==> WellSpelled(o)
  }

  predicate AsksDevice(options: seq<AuthOption>) {
    options != [] && (options[0].Device? || AsksDevice(options[1..]))
  }

  /** The last profile named, or else `earlier`. */
  function LastProfile(options: seq<AuthOption>, earlier: Option<string>): Option<string> {
    if options == [] then earlier
    else LastProfile(options[1..], if options[0].Profile? then Some(Trim(options[0].value)) else earlier)
  }

  lemma {:induction false} SpelledIsRead(options: seq<AuthOption>, action: Action, deviceAuth: bool,
                                         profileId: Option<string>)
    requires AllWellSpelled(options)
    ensures ParseAuthOptions(Spelled(options), action, deviceAuth, profileId)
         == Ok(Auth(action, deviceAuth || AsksDevice(options), LastProfile(options, profileId)))
  {
    if options != [] {
      var o, rest := options[0], options[1..];
      assert o in options && AllWellSpelled(rest);
      FlagsDiffer();
      match o
      case Blank(_) =>
        assert Spelled(options)[1..] == Spelled(rest);
        SpelledIsRead(rest, action, deviceAuth, profileId);
      case Device(_) =>
        assert Spelled(options)[1..] == Spelled(rest);
        SpelledIsRead(rest, action, true, profileId);
      case Profile(_, value) =>
        assert Spelled(options)[2..] == Spelled(rest);
        SpelledIsRead(rest, action, deviceAuth, Some(Trim(value)));
    }
  }

  lemma FlagsDiffer()
    ensures DEVICE_AUTH_FLAG != "" && PROFILE_FLAG != "" && DEVICE_AUTH_FLAG != PROFILE_FLAG
  {
  }

  /** The option that the arguments begin with, if they do not offend at once, and what is read behind it. */
  lemma OptionRead(args: seq<string>, action: Action, deviceAuth: bool, profileId: Option<string>)
    returns (o: AuthOption, tail: seq<string>, device: bool, profile: Option<string>)
    requires args != []
    requires Trim(args[0]) == "" || Trim(args[0]) == DEVICE_AUTH_FLAG
             || (Trim(args[0]) == PROFILE_FLAG && Trim(At(args, 1)) != "")
    ensures WellSpelled(o) && args == ArgsOf(o) + tail && |tail| < |args|
    ensures ParseAuthOptions(args, action, deviceAuth, profileId) == ParseAuthOptions(tail, action, device, profile)
  {
    EmptyWord();
    FlagsDiffer();
    var token := Trim(args[0]);
    if token == "" {
      o, tail, device, profile := Blank(args[0]), args[1..], deviceAuth, profileId;
    } else if token == DEVICE_AUTH_FLAG {
      o, tail, device, profile := Device(args[0]), args[1..], true, profileId;
    } else {
      o, tail, device, profile := Profile(args[0], args[1]), args[2..], deviceAuth, Some(Trim(args[1]));
    }
  }

  lemma {:induction false} ReadIsSpelled(args: seq<string>, action: Action, deviceAuth: bool, profileId: Option<string>)
    returns (options: seq<AuthOption>)
    requires ParseAuthOptions(args, action, deviceAuth, profileId).Ok?
    ensures AllWellSpelled(options) && Spelled(options) == args
    decreases |args|
  {
    if args == [] {
      options := [];
    } else {
      var o, tail, device, profile := OptionRead(args, action, deviceAuth, profileId);
      options := ReadIsSpelled(tail, action, device, profile);
      SpelledMore(o, options);
      options := [o] + options;
    }
  }

  lemma SpelledMore(o: AuthOption, rest: seq<AuthOption>)
    requires WellSpelled(o) && AllWellSpelled(rest)
    ensures AllWellSpelled([o] + rest) && Spelled([o] + rest) == ArgsOf(o) + Spelled(rest)
  {
    assert ([o] + rest)[1..] == rest;
  }

  /**
   An auth command takes exactly the lists of blanks, device flags and profiles with a value; it asks for device login
   if one flag does, and the last profile wins.
   */
  lemma AuthOptionsMeaning(args: seq<string>, action: Action, deviceAuth: bool, profileId: Option<string>)
    ensures ParseAuthOptions(args, action, false, None) == Ok(Auth(action, deviceAuth, profileId))
       <==> exists options :: AllWellSpelled(options) && Spelled(options) == args
                              && deviceAuth == AsksDevice(options) && profileId == LastProfile(options, None)
  {
    if ParseAuthOptions(args, action, false, None) == Ok(Auth(action, deviceAuth, profileId)) {
      var options := ReadIsSpelled(args, action, false, None);
      SpelledIsRead(options, action, false, None);
    }
    forall options | AllWellSpelled(options) && Spelled(options) == args
      ensures ParseAuthOptions(args, action, false, None)
           == Ok(Auth(action, AsksDevice(options), LastProfile(options, None)))
    {
      SpelledIsRead(options, action, false, None);
    }
  }

  /** What an option list that is refused has behind the options that are well spelled. */
  ghost predicate Offends(rest: seq<string>, failure: Failure) {
    && rest != []
    && var token := Trim(rest[0]);
       && token != "" && token != "--device-auth"
       && if token == "--profile" then (|rest| == 1 || Trim(rest[1]) == "") && failure == MissingProfileValue
          else if token[0] == '-' then failure == UnknownFlag(token)
          else failure == UnexpectedArgument(token)
  }

  lemma OffendsAtOnce(args: seq<string>, action: Action, deviceAuth: bool, profileId: Option<string>)
    requires args != [] && Trim(args[0]) != "" && Trim(args[0]) != DEVICE_AUTH_FLAG
    requires Trim(args[0]) == PROFILE_FLAG ==> Trim(At(args, 1)) == ""
    ensures ParseAuthOptions(args, action, deviceAuth, profileId).Fail?
    ensures Offends(args, ParseAuthOptions(args, action, deviceAuth, profileId).failure)
  {
  }

  lemma SpelledBehind(o: AuthOption, options: seq<AuthOption>, rest: seq<string>)
    requires WellSpelled(o) && AllWellSpelled(options)
    ensures AllWellSpelled([o] + options) && Spelled([o] + options) + rest == ArgsOf(o) + (Spelled(options) + rest)
  {
    SpelledMore(o, options);
    Associate(ArgsOf(o), Spelled(options), rest);
  }

  /** A refusal tells what is wrong with the first arguments that spell no option. */
  lemma {:induction false} FirstOffendingOption(args: seq<string>, action: Action, deviceAuth: bool,
                                                profileId: Option<string>)
    returns (options: seq<AuthOption>, rest: seq<string>)
    requires ParseAuthOptions(args, action, deviceAuth, profileId).Fail?
    ensures AllWellSpelled(options) && args == Spelled(options) + rest
    ensures Offends(rest, ParseAuthOptions(args, action, deviceAuth, profileId).failure)
    decreases |args|
  {
    var token := Trim(args[0]);
    if token != "" && token != DEVICE_AUTH_FLAG && (token == PROFILE_FLAG ==> Trim(At(args, 1)) == "") {
      OffendsAtOnce(args, action, deviceAuth, profileId);
      options, rest := [], args;
    } else {
      var o, tail, device, profile := OptionRead(args, action, deviceAuth, profileId);
      options, rest := FirstOffendingOption(tail, action, device, profile);
      SpelledBehind(o, options, rest);
      options := [o] + options;
    }
  }

  /** The letters from A to Z become those from a to z, by their codes. */
  lemma LowerCaseMeaning(s: string)
    ensures |LowerCase(s)| == |s|
    ensures forall i :: 0 <= i < |s| ==>
              LowerCase(s)[i] as int == s[i] as int + if 65 <= s[i] as int <= 90 then 32 else 0
  {
  }

  /** The provider comes first, then the action, then the options. */
  lemma {:induction false} AuthMeaning(args: seq<string>)
    ensures ParseAuth(args) == Fail(UnsupportedProvider) <==> |args| == 0 || LowerCase(Trim(args[0])) != "codex"
    ensures ParseAuth(args) == Fail(UnsupportedAction) <==>
              && |args| > 0 && LowerCase(Trim(args[0])) == "codex"
              && (|args| == 1 || LowerCase(Trim(args[1])) !in ["login", "status", "logout"])
    ensures |args| > 1 && LowerCase(Trim(args[0])) == "codex" ==>
              && (LowerCase(Trim(args[1])) == "login" ==>
                    ParseAuth(args) == ParseAuthOptions(args[2..], Login, false, None))
              && (LowerCase(Trim(args[1])) == "status" ==>
                    ParseAuth(args) == ParseAuthOptions(args[2..], Status, false, None))
              && (LowerCase(Trim(args[1])) == "logout" ==>
                    ParseAuth(args) == ParseAuthOptions(args[2..], Logout, false, None))
  {
    EmptyWord();
    if |args| > 1 && Word(args[0]) == "codex" && ActionOf(Word(args[1])).Some? {
      if ParseAuth(args).Fail? {
        var options, rest := FirstOffendingOption(args[2..], ActionOf(Word(args[1])).value, false, None);
      }
    }
  }

  /** Help is what is asked for exactly by one of its two flags; else the first word tells which parser reads on. */
  lemma {:induction false} ParseMeaning(args: seq<string>)
    ensures Parse(args) == Fail(HelpRequested) <==> "--help" in args || "-h" in args
    ensures "--help" !in args && "-h" !in args ==>
              Parse(args) == if |args| > 0 && LowerCase(Trim(args[0])) == "auth" then ParseAuth(args[1..])
                             else ParseWork(args)
  {
    EmptyWord();
    if ScanArgs(args).Rejected? {
      var i := FirstOffence(args);
    }
    if |args| > 0 && ParseAuth(args[1..]).Fail? {
      AuthIsNoHelp(args[1..]);
    }
  }

  lemma AuthIsNoHelp(args: seq<string>)
    ensures ParseAuth(args) != Fail(HelpRequested)
  {
    if Word(At(args, 0)) == "codex" && ActionOf(Word(At(args, 1))).Some? {
      EmptyWord();
      var action := ActionOf(Word(At(args, 1))).value;
      if ParseAuthOptions(args[2..], action, false, None).Fail? {
        var options, rest := FirstOffendingOption(args[2..], action, false, None);
      }
    }
  }

  // ----- Printing

  function ModeArgs(mode: Mode): seq<string> {
    match mode
    case Task => []
    case Autonomous => [AUTONOMOUS_FLAG]
    case Daemon => [DAEMON_FLAG]
  }

  function ActionWord(action: Action): string {
    match action
    case Login => "login"
    case Status => "status"
    case Logout => "logout"
  }

  /** A value that the help check would take for itself is kept from it by a space. */
  function Guarded(value: string): string {
    if value == "-h" || value == "--help" then " " + value else value
  }

  function OptionArgs(deviceAuth: bool, profileId: Option<string>): seq<string> {
    (if deviceAuth then [DEVICE_AUTH_FLAG] else []) + ProfileArgs(profileId)
  }

  function ProfileArgs(profileId: Option<string>): seq<string> {
    if profileId.Some? then [PROFILE_FLAG, Guarded(profileId.value)] else []
  }

  /** Arguments for a command.  A plain goal that would be read as the auth command is kept from the first place. */
  function Print(c: Command): seq<string> {
    match c
    case Work(mode, goal) => (if mode.Task? && Word(goal) == "auth" then [""] else ModeArgs(mode)) + [goal]
    case Auth(action, deviceAuth, profileId) =>
      ["auth", "codex", ActionWord(action)] + OptionArgs(deviceAuth, profileId)
  }

  predicate Printable(c: Command) {
    match c
    case Work(_, goal) => IsGoalText(goal)
    case Auth(_, _, profileId) => profileId.Some? ==> profileId.value != "" && IsTrimmed(profileId.value)
  }

  lemma ScanPair(one: string, goal: string)
    ensures ScanArgs([goal]) == ScanToken(Task, [], Trim(goal))
    ensures ScanArgs([one, goal]) == match ScanToken(Task, [], Trim(one))
                                     case Rejected(f) => Rejected(f)
                                     case Collected(mode, tokens) => ScanToken(mode, tokens, Trim(goal))
  {
    assert [goal][..0] == [] && [one, goal][..1] == [one] && [one][..0] == [];
    assert ScanArgs([one]) == ScanToken(Task, [], Trim(one));
  }

  lemma FlagsAreTrimmed()
    ensures Trim(AUTONOMOUS_FLAG) == AUTONOMOUS_FLAG && Trim(DAEMON_FLAG) == DAEMON_FLAG
    ensures Trim(DEVICE_AUTH_FLAG) == DEVICE_AUTH_FLAG && Trim(PROFILE_FLAG) == PROFILE_FLAG
  {
    TrimOfTrimmed(AUTONOMOUS_FLAG);
    TrimOfTrimmed(DAEMON_FLAG);
    TrimOfTrimmed(DEVICE_AUTH_FLAG);
    TrimOfTrimmed(PROFILE_FLAG);
  }

  /** A goal alone, or after one argument that selects its mode. */
  lemma ScanOfGoal(mode: Mode, first: string, goal: string)
    requires IsGoalText(goal)
    requires first == if mode.Autonomous? then AUTONOMOUS_FLAG else if mode.Daemon? then DAEMON_FLAG else ""
    ensures ScanArgs([first, goal]) == Collected(mode, [goal])
    ensures ScanArgs([goal]) == Collected(Task, [goal])
  {
    TrimOfTrimmed(goal);
    FlagsAreTrimmed();
    EmptyWord();
    ScanPair(first, goal);
  }

  lemma FlagIsNotAuth(first: string)
    requires first == "" || IsFlag(first)
    ensures Word(first) != "auth"
  {
    if first != "" {
      var from, to := TrimSlice(first);
      assert !IsSpace('-');
      assert Word(first)[0] == LowerChar(first[0]);
    }
  }

  lemma ParseOfScan(args: seq<string>, mode: Mode, goal: string)
    requires !AsksHelp(args) && Word(At(args, 0)) != "auth" && ScanArgs(args) == Collected(mode, [goal])
    ensures Parse(args) == Ok(Work(mode, goal))
  {
    assert Join([goal], " ") == goal;
  }

  lemma NoHelp(first: string, goal: string)
    requires !IsFlag(goal) && (first == "" || first == AUTONOMOUS_FLAG || first == DAEMON_FLAG)
    ensures !AsksHelp([goal]) && !AsksHelp([first, goal])
  {
    assert IsFlag("-h") && IsFlag("--help") && |"-h"| == 2 && |"--help"| == 6;
  }

  lemma WorkRoundTrip(mode: Mode, goal: string)
    requires IsGoalText(goal)
    ensures Parse(Print(Work(mode, goal))) == Ok(Work(mode, goal))
  {
    var first := if mode.Autonomous? then AUTONOMOUS_FLAG else if mode.Daemon? then DAEMON_FLAG else "";
    ScanOfGoal(mode, first, goal);
    NoHelp(first, goal);
    if mode.Task? && Word(goal) != "auth" {
      ParseOfScan([goal], mode, goal);
      assert Print(Work(mode, goal)) == [goal];
    } else {
      FlagIsNotAuth(first);
      ParseOfScan([first, goal], mode, goal);
      assert Print(Work(mode, goal)) == [first, goal];
    }
  }

  lemma GuardedIsTrimmedBack(value: string)
    requires IsTrimmed(value)
    ensures Trim(Guarded(value)) == value && Guarded(value) != "-h" && Guarded(value) != "--help"
  {
    if Guarded(value) != value {
      assert Guarded(value)[1..] == value;
      assert TrimStart(Guarded(value)) == TrimStart(value);
    }
    TrimOfTrimmed(value);
  }

  lemma AuthWords(action: Action)
    ensures Word("auth") == "auth" && Word("codex") == "codex" && Word(ActionWord(action)) == ActionWord(action)
  {
    TrimOfTrimmed("auth");
    TrimOfTrimmed("codex");
    TrimOfTrimmed(ActionWord(action));
  }

  lemma {:induction false} AuthPrefix(action: Action, options: seq<string>)
    requires "-h" !in options && "--help" !in options
    ensures Parse(["auth", "codex", ActionWord(action)] + options) == ParseAuthOptions(options, action, false, None)
  {
    var head := ["auth", "codex", ActionWord(action)];
    var args := head + options;
    AuthWords(action);
    assert !AsksHelp(head) && forall a :: a in args <==> a in head || a in options;
    assert args[1..][2..] == options;
    assert args[0] == "auth" && args[1..][0] == "codex" && args[1..][1] == ActionWord(action);
  }

  lemma OptionsAskNoHelp(deviceAuth: bool, profileId: Option<string>)
    requires profileId.Some? ==> IsTrimmed(profileId.value)
    ensures "-h" !in OptionArgs(deviceAuth, profileId) && "--help" !in OptionArgs(deviceAuth, profileId)
  {
    if profileId.Some? {
      GuardedIsTrimmedBack(profileId.value);
    }
  }

  lemma {:induction false} AuthRoundTrip(action: Action, deviceAuth: bool, profileId: Option<string>)
    requires profileId.Some? ==> profileId.value != "" && IsTrimmed(profileId.value)
    ensures Parse(Print(Auth(action, deviceAuth, profileId))) == Ok(Auth(action, deviceAuth, profileId))
  {
    OptionsAskNoHelp(deviceAuth, profileId);
    AuthPrefix(action, OptionArgs(deviceAuth, profileId));
    DeviceOption(action, deviceAuth, profileId);
    ProfileOption(action, deviceAuth, profileId);
  }

  lemma ProfileOption(action: Action, deviceAuth: bool, profileId: Option<string>)
    requires profileId.Some? ==> profileId.value != "" && IsTrimmed(profileId.value)
    ensures ParseAuthOptions(ProfileArgs(profileId), action, deviceAuth, None)
         == Ok(Auth(action, deviceAuth, profileId))
  {
    FlagsAreTrimmed();
    if profileId.Some? {
      GuardedIsTrimmedBack(profileId.value);
      assert ProfileArgs(profileId)[2..] == [];
    }
  }

  lemma DeviceOption(action: Action, deviceAuth: bool, profileId: Option<string>)
    ensures ParseAuthOptions(OptionArgs(deviceAuth, profileId), action, false, None)
         == ParseAuthOptions(ProfileArgs(profileId), action, deviceAuth, None)
  {
    FlagsAreTrimmed();
    if deviceAuth {
      assert OptionArgs(deviceAuth, profileId)[1..] == ProfileArgs(profileId);
    } else {
      assert OptionArgs(deviceAuth, profileId) == ProfileArgs(profileId);
    }
  }

  lemma {:induction false} AuthOptionsPrintable(args: seq<string>, action: Action, deviceAuth: bool,
                                                profileId: Option<string>)
    requires Printable(Auth(action, deviceAuth, profileId))
    ensures var parsed := ParseAuthOptions(args, action, deviceAuth, profileId);
            parsed.Ok? ==> Printable(parsed.command)
    decreases |args|
  {
    if args != [] {
      var token, value := Trim(args[0]), Trim(At(args, 1));
      if token == "" {
        AuthOptionsPrintable(args[1..], action, deviceAuth, profileId);
      } else if token == DEVICE_AUTH_FLAG {
        AuthOptionsPrintable(args[1..], action, true, profileId);
      } else if token == PROFILE_FLAG && value != "" {
        var from, to := TrimSlice(args[1]);
        AuthOptionsPrintable(args[2..], action, deviceAuth, Some(value));
      }
    }
  }

  lemma {:induction false} ParsedIsPrintable(args: seq<string>)
    ensures Parse(args).Ok? ==> Printable(Parse(args).command)
  {
    if Parse(args).Ok? {
      if Word(At(args, 0)) == "auth" {
        var rest := args[1..];
        AuthOptionsPrintable(rest[2..], ActionOf(Word(At(rest, 1))).value, false, None);
      } else {
        GoalTokensAreWords(args);
        JoinOfWords(ScanArgs(args).goalTokens);
      }
    }
  }

  /** Printing is a right inverse of parsing on exactly the commands that parsing can yield. */
  lemma {:induction false} RoundTrip(c: Command)
    ensures Printable(c) <==> Parse(Print(c)) == Ok(c)
    ensures (exists args :: Parse(args) == Ok(c)) <==> Parse(Print(c)) == Ok(c)
  {
    if Printable(c) {
      match c
      case Work(mode, goal) => WorkRoundTrip(mode, goal);
      case Auth(action, deviceAuth, profileId) => AuthRoundTrip(action, deviceAuth, profileId);
    } else {
      forall args ensures Parse(args) != Ok(c) {
        ParsedIsPrintable(args);
      }
    }
  }
}
