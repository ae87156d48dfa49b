/** The decision logic of the file commands `/read`, `/inject`, `/overwrite`
    and `/trim`: how arguments default, how `/read` numbers its lines, and
    whether register text is appended or inserted. The file itself and the
    `sed`, `wc` and `git` calls stay outside; the commands return the edits
    they would perform. None of them touches the register store. */
module FileCommands {
  import opened Wrappers
  import opened PyText
  import opened Rom
  import opened Replies
  import opened Registers

  /** One call to an external line editor; each is wrapped in trailing-newline
      normalisation and followed by a commit. */
  datatype Edit =
    | AppendText(file: string, text: string)             // open(file, "a").write(text)
    | InsertText(file: string, line: int, text: string)  // sed -i "<line> i <text>"
    | DeleteLines(file: string, first: int, last: int)   // sed -i "<first>,<last>d"

  /** The reply a file command sends before any external failure, and the edits it performs. */
  datatype FileStep = FileStep(reply: Reply, edits: seq<Edit>)

  /** An inclusive, 1-indexed line range of a file. */
  datatype LineRange = LineRange(file: string, first: int, last: int)

  /** `/inject` and `/overwrite`: which register goes into which lines. */
  datatype Placement = Placement(name: string, file: string, first: int, last: int)

  const ReadUsage := "Correct format: /read <file> <line_start> <line_end>"
  const InjectUsage := "Correct format: /inject <label> <file> <line>"
  const OverwriteUsage := "Correct format: /overwrite <label> <file> <line_start> <line_end>"
  const TrimUsage := "Correct format: /trim <file> <line_start> <line_end>"
  const TrimLineUsage := "Correct format: /trim <file> <line> <line>"

  /** `int()` applied to every argument in turn; one failure fails them all. */
  function ParseAll(args: seq<string>): (r: Option<seq<int>>)
    ensures r.Some? <==> forall i :: 0 <= i < |args| ==> ParseInt(args[i]).Some?
    ensures r.Some? ==> |r.value| == |args| && forall i :: 0 <= i < |args| ==> ParseInt(args[i]) == Some(r.value[i])
  {
    if |args| == 0 then Some([])
    else match (ParseInt(args[0]), ParseAll(args[1..]))
      case (Some(n), Some(rest)) => Some([n] + rest)
      case _ => None
  }

  // ---------------------------------------------------------------------
  // /read <file> [line_start] [line_end]
  // ---------------------------------------------------------------------

  /** The range `/read` asks `sed` for. The source turns the numbers into
      ints in place, then appends 1 when only the file is given and
      `line_start + 5` when no end is given. A bad number ends the command
      without a message. */
  function ReadArgs(args: seq<string>): (r: Result<LineRange, Reply>)
    ensures |args| == 0 || |args| > 3 ==> r == Err(Usage(ReadUsage))
    ensures |args| == 1 ==> r == Ok(LineRange(args[0], 1, 6))
    ensures |args| == 2 ==>
      match ParseInt(args[1])
      case Some(first) => r == Ok(LineRange(args[0], first, first + 5))
      case None => r == Err(Silent)
    ensures |args| == 3 ==>
      if ParseInt(args[1]).Some? && ParseInt(args[2]).Some? then
        r == Ok(LineRange(args[0], ParseInt(args[1]).value, ParseInt(args[2]).value))
      else r == Err(Silent)
  {
    if !(1 <= |args| <= 3) then Err(Usage(ReadUsage))
    else match ParseAll(args[1..])
      case None => Err(Silent)
      case Some(numbers) =>
        var withStart := if |numbers| == 0 then numbers + [1] else numbers;
        var withEnd := if |withStart| == 1 then withStart + [withStart[0] + 5] else withStart;
        Ok(LineRange(args[0], withEnd[0], withEnd[1]))
  }

  /** One line of the `/read` reply: the line number, a space, the text. */
  function NumberedLine(number: int, text: string): string
  {
    IntToString(number) + " " + text + "\n"
  }

  /** The `/read` reply body: line `i` of the output, counted from 0, is
      prefixed with `i + line_start` and a space, and ends with a newline. */
  function NumberLines(out: seq<string>, lineStart: int): string
    decreases |out|
  {
    if |out| == 0 then ""
    else NumberedLine(lineStart, out[0]) + NumberLines(out[1..], lineStart + 1)
  }

  lemma NumberLinesStep(out: seq<string>, i: nat, lineStart: int)
    requires i < |out|
    ensures NumberLines(out[i..], lineStart + i)
         == NumberedLine(i + lineStart, out[i]) + NumberLines(out[i + 1..], lineStart + i + 1)
  {
    assert out[i..][1..] == out[i + 1..];
  }

  /** The loop in the source builds the same text as `NumberLines`. */
  method NumberLinesLoop(out: seq<string>, lineStart: int) returns (message: string)
    ensures message == NumberLines(out, lineStart)
  {
    message := "";
    var i := 0;
    while i < |out|
      invariant 0 <= i <= |out|
      invariant message + NumberLines(out[i..], lineStart + i) == NumberLines(out, lineStart)
    {
      var line := NumberedLine(i + lineStart, out[i]);
      NumberLinesStep(out, i, lineStart);
      message := message + line;
      i := i + 1;
    }
    assert out[i..] == [];
  }

  lemma NumberedHeadHasNoNewline(number: int, text: string)
    requires '\n' !in text
    ensures '\n' !in IntToString(number) + " " + text
  {
    var digits := IntToString(number);
    var head := digits + " " + text;
    forall k | 0 <= k < |head|
      ensures head[k] != '\n'
    {
      if k < |digits| {
        assert head[k] == digits[k];
      } else if k > |digits| {
        assert head[k] == text[k - |digits| - 1];
      }
    }
  }

  lemma NumberLinesCons(out: seq<string>, lineStart: int)
    requires |out| > 0
    ensures NumberLines(out, lineStart)
         == (IntToString(lineStart) + " " + out[0]) + ['\n'] + NumberLines(out[1..], lineStart + 1)
  {
    assert NumberedLine(lineStart, out[0]) == (IntToString(lineStart) + " " + out[0]) + ['\n'];
  }

  /** Read back line by line, the reply holds line `i` of the output under
      the number `i + line_start`, then one final empty line. */
  lemma {:induction false} NumberLinesSplit(out: seq<string>, lineStart: int)
    requires forall i :: 0 <= i < |out| ==> '\n' !in out[i]
    ensures var lines := Split(NumberLines(out, lineStart), '\n');
      && |lines| == |out| + 1
      && (forall i :: 0 <= i < |out| ==> lines[i] == IntToString(i + lineStart) + " " + out[i])
      && lines[|out|] == ""
    decreases |out|
  {
    if |out| > 0 {
      var head := IntToString(lineStart) + " " + out[0];
      var tail := NumberLines(out[1..], lineStart + 1);
      NumberedHeadHasNoNewline(lineStart, out[0]);
      NumberLinesCons(out, lineStart);
      SplitAtFirst(head, tail, '\n');
      NumberLinesSplit(out[1..], lineStart + 1);
      var lines := Split(NumberLines(out, lineStart), '\n');
      var rest := Split(tail, '\n');
      assert lines == [head] + rest;
      forall i | 1 <= i < |out|
        ensures lines[i] == IntToString(i + lineStart) + " " + out[i]
      {
        assert lines[i] == rest[i - 1];
        assert out[1..][i - 1] == out[i];
      }
    } else {
      assert Split("", '\n') == [""];
    }
  }

  /** `/read`: numbered lines of the file, `-1` when `sed` fails. `sed`
      gives the output of `sed -n "<first>,<last>p" <file>`, or `None`. */
  function ReadLines(rom: RomState, allowed: set<UserId>, user: UserId, args: seq<string>,
                     sed: (string, int, int) -> Option<string>): (r: Reply)
    ensures Refusal(rom, allowed, user).Some? ==> r == Refusal(rom, allowed, user).value
    ensures Refusal(rom, allowed, user).None? && ReadArgs(args).Err? ==> r == ReadArgs(args).error
    ensures Refusal(rom, allowed, user).None? && ReadArgs(args).Ok? ==>
      var range := ReadArgs(args).value;
      match sed(range.file, range.first, range.last)
      case None => r == Failed
      case Some(out) =>
        var lines := Split(out, '\n');
        && r.Message?
        && |Split(r.text, '\n')| == |lines| + 1
        && (forall i :: 0 <= i < |lines| ==> Split(r.text, '\n')[i] == IntToString(range.first + i) + " " + lines[i])
        && Split(r.text, '\n')[|lines|] == ""
  {
    match Refusal(rom, allowed, user)
    case Some(refused) => refused
    case None =>
      match ReadArgs(args)
      case Err(reply) => reply
      case Ok(range) =>
        match sed(range.file, range.first, range.last)
        case None => Failed
        case Some(out) =>
          NumberLinesSplit(Split(out, '\n'), range.first);
          Message(NumberLines(Split(out, '\n'), range.first))
  }

  // ---------------------------------------------------------------------
  // Append or insert
  // ---------------------------------------------------------------------

  /** Register text goes to the end of the file exactly when the requested
      line lies past the file's line count; otherwise it goes before that line. */
  function PlaceText(file: string, line: int, count: int, text: string): (e: Edit)
    ensures e.AppendText? || e.InsertText?
    ensures e.AppendText? <==> line > count
    ensures e.file == file && e.text == text
    ensures e.InsertText? ==> e.line == line
  {
    if line > count then AppendText(file, text) else InsertText(file, line, text)
  }

  /** When `wc` fails the count is -1, so every line from 0 up appends. */
  lemma FailedCountAppends(file: string, line: int, text: string)
    requires line >= 0
    ensures PlaceText(file, line, CountLines(None), text) == AppendText(file, text)
  {
  }

  // ---------------------------------------------------------------------
  // /inject <label> <file> [line]
  // ---------------------------------------------------------------------

  /** `/inject` takes two or three arguments; a missing line is 1. */
  function InjectArgs(args: seq<string>): (r: Result<Placement, Reply>)
    ensures !(2 <= |args| <= 3) ==> r == Err(Usage(InjectUsage))
    ensures |args| == 2 ==> r == Ok(Placement(args[0], args[1], 1, 1))
    ensures |args| == 3 ==>
      match ParseInt(args[2])
      case Some(line) => r == Ok(Placement(args[0], args[1], line, line))
      case None => r == Err(Usage(InjectUsage))
  {
    if !(2 <= |args| <= 3) then Err(Usage(InjectUsage))
    else
      var line := if |args| == 2 then Some(1) else ParseInt(args[2]);
      match line
      case None => Err(Usage(InjectUsage))
      case Some(n) => Ok(Placement(args[0], args[1], n, n))
  }

  /** `/inject`: puts the register's text into the file, appending when the
      line lies past the count `wc` reports (-1 if it fails). */
  function Inject(rom: RomState, allowed: set<UserId>, user: UserId, args: seq<string>,
                  wc: string -> Option<string>): (s: FileStep)
    ensures Refusal(rom, allowed, user).Some? ==> s == FileStep(Refusal(rom, allowed, user).value, [])
    ensures Refusal(rom, allowed, user).None? && InjectArgs(args).Err? ==> s == FileStep(InjectArgs(args).error, [])
    ensures Refusal(rom, allowed, user).None? && InjectArgs(args).Ok? ==>
      var p := InjectArgs(args).value;
      if RegisterIsEmpty(rom, user, p.name) then s == FileStep(RegisterEmpty(p.name), [])
      else
        && s.reply == Silent
        && |s.edits| == 1
        && (s.edits[0].AppendText? || s.edits[0].InsertText?)
        && s.edits[0].file == p.file
        && s.edits[0].text == rom[user].regs[p.name]
        && (s.edits[0].AppendText? <==> p.first > CountLines(wc(p.file)))
        && (s.edits[0].InsertText? ==> s.edits[0].line == p.first)
  {
    match Refusal(rom, allowed, user)
    case Some(refused) => FileStep(refused, [])
    case None =>
      match InjectArgs(args)
      case Err(reply) => FileStep(reply, [])
      case Ok(p) =>
        if RegisterIsEmpty(rom, user, p.name) then FileStep(RegisterEmpty(p.name), [])
        else FileStep(Silent, [PlaceText(p.file, p.first, CountLines(wc(p.file)), rom[user].regs[p.name])])
  }

  // ---------------------------------------------------------------------
  // /overwrite <label> <file> <line_start> [line_end]
  // ---------------------------------------------------------------------

  /** `/overwrite` takes three or four arguments; a missing end repeats the
      start, so a single line is replaced. */
  function OverwriteArgs(args: seq<string>): (r: Result<Placement, Reply>)
    ensures !(3 <= |args| <= 4) ==> r == Err(Usage(OverwriteUsage))
    ensures |args| == 3 ==>
      match ParseInt(args[2])
      case Some(line) => r == Ok(Placement(args[0], args[1], line, line))
      case None => r == Err(Usage(OverwriteUsage))
    ensures |args| == 4 ==>
      if ParseInt(args[2]).Some? && ParseInt(args[3]).Some? then
        r == Ok(Placement(args[0], args[1], ParseInt(args[2]).value, ParseInt(args[3]).value))
      else r == Err(Usage(OverwriteUsage))
  {
    if !(3 <= |args| <= 4) then Err(Usage(OverwriteUsage))
    else
      var full := if |args| == 3 then args + [args[|args| - 1]] else args;
      match ParseAll(full[2..])
      case None => Err(Usage(OverwriteUsage))
      case Some(numbers) => Ok(Placement(full[0], full[1], numbers[0], numbers[1]))
  }

  /** `/overwrite`: deletes the range, then places the register's text at
      the start line against the shortened file, whose `wc` output is
      `wcAfterDelete`. */
  function Overwrite(rom: RomState, allowed: set<UserId>, user: UserId, args: seq<string>,
                     wcAfterDelete: string -> Option<string>): (s: FileStep)
    ensures Refusal(rom, allowed, user).Some? ==> s == FileStep(Refusal(rom, allowed, user).value, [])
    ensures Refusal(rom, allowed, user).None? && OverwriteArgs(args).Err? ==> s == FileStep(OverwriteArgs(args).error, [])
    ensures Refusal(rom, allowed, user).None? && OverwriteArgs(args).Ok? ==>
      var p := OverwriteArgs(args).value;
      if RegisterIsEmpty(rom, user, p.name) then s == FileStep(RegisterEmpty(p.name), [])
      else
        && s.reply == Silent
        && |s.edits| == 2
        && s.edits[0] == DeleteLines(p.file, p.first, p.last)
        && (s.edits[1].AppendText? || s.edits[1].InsertText?)
        && s.edits[1].file == p.file
        && s.edits[1].text == rom[user].regs[p.name]
        && (s.edits[1].AppendText? <==> p.first > CountLines(wcAfterDelete(p.file)))
        && (s.edits[1].InsertText? ==> s.edits[1].line == p.first)
  {
    match Refusal(rom, allowed, user)
    case Some(refused) => FileStep(refused, [])
    case None =>
      match OverwriteArgs(args)
      case Err(reply) => FileStep(reply, [])
      case Ok(p) =>
        if RegisterIsEmpty(rom, user, p.name) then FileStep(RegisterEmpty(p.name), [])
        else
          var content := rom[user].regs[p.name];
          FileStep(Silent, [DeleteLines(p.file, p.first, p.last),
                            PlaceText(p.file, p.first, CountLines(wcAfterDelete(p.file)), content)])
  }

  // ---------------------------------------------------------------------
  // /trim <file> <line_start> [line_end]
  // ---------------------------------------------------------------------

  /** `/trim` takes two or three arguments; a missing end repeats the start.
      A bad number gets a differently worded usage line. */
  function TrimArgs(args: seq<string>): (r: Result<LineRange, Reply>)
    ensures !(2 <= |args| <= 3) ==> r == Err(Usage(TrimUsage))
    ensures |args| == 2 ==>
      match ParseInt(args[1])
      case Some(line) => r == Ok(LineRange(args[0], line, line))
      case None => r == Err(Usage(TrimLineUsage))
    ensures |args| == 3 ==>
      if ParseInt(args[1]).Some? && ParseInt(args[2]).Some? then
        r == Ok(LineRange(args[0], ParseInt(args[1]).value, ParseInt(args[2]).value))
      else r == Err(Usage(TrimLineUsage))
  {
    if !(2 <= |args| <= 3) then Err(Usage(TrimUsage))
    else
      var full := if |args| == 2 then args + [args[1]] else args;
      match ParseAll(full[1..])
      case None => Err(Usage(TrimLineUsage))
      case Some(numbers) => Ok(LineRange(full[0], numbers[0], numbers[1]))
  }

  /** `/trim`: deletes the line range; no register is involved. */
  function Trim(rom: RomState, allowed: set<UserId>, user: UserId, args: seq<string>): (s: FileStep)
    ensures Refusal(rom, allowed, user).Some? ==> s == FileStep(Refusal(rom, allowed, user).value, [])
    ensures Refusal(rom, allowed, user).None? && TrimArgs(args).Err? ==> s == FileStep(TrimArgs(args).error, [])
    ensures Refusal(rom, allowed, user).None? && TrimArgs(args).Ok? ==>
      var range := TrimArgs(args).value;
      s == FileStep(Silent, [DeleteLines(range.file, range.first, range.last)])
  {
    match Refusal(rom, allowed, user)
    case Some(refused) => FileStep(refused, [])
    case None =>
      match TrimArgs(args)
      case Err(reply) => FileStep(reply, [])
      case Ok(range) => FileStep(Silent, [DeleteLines(range.file, range.first, range.last)])
  }

  // ---------------------------------------------------------------------
  // Properties across the file commands
  // ---------------------------------------------------------------------

  /** Numbers that `/trim` and `/overwrite` read back as they were written. */
  lemma SingleLineRanges(file: string, name: string, n: int)
    ensures TrimArgs([file, IntToString(n)]) == Ok(LineRange(file, n, n))
    ensures OverwriteArgs([name, file, IntToString(n)]) == Ok(Placement(name, file, n, n))
    ensures InjectArgs([name, file, IntToString(n)]) == Ok(Placement(name, file, n, n))
    ensures ReadArgs([file, IntToString(n)]) == Ok(LineRange(file, n, n + 5))
  {
    ParseIntToString(n);
  }

  /** With an open register the file commands are refused before their
      arguments are even looked at, and they edit nothing. */
  lemma FileCommandsGuarded(rom: RomState, allowed: set<UserId>, user: UserId, args: seq<string>,
                            sed: (string, int, int) -> Option<string>, wc: string -> Option<string>)
    requires user in allowed && WritingToRom(rom, user)
    ensures var refused := ReleaseFirst(rom[user].active.value);
      && ReadLines(rom, allowed, user, args, sed) == refused
      && Inject(rom, allowed, user, args, wc) == FileStep(refused, [])
      && Overwrite(rom, allowed, user, args, wc) == FileStep(refused, [])
      && Trim(rom, allowed, user, args) == FileStep(refused, [])
  {
  }
}
