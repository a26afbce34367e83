/**
 * Assembly of the child's command line in CreateChildProcess: the program path
 * and then every argument, each preceded by one space, formatted with
 * sprintf_s into a fixed 512-character stack buffer.
 */
module CommandLine {

  /** Size of the `cmdline` stack buffer, in bytes. One `char` here stands for one `gchar` byte, so a
      multi-byte character in the path or an argument counts once per byte. */
  const CmdLineSize: nat := 512

  /** A C string's content: it cannot hold the terminating NUL itself. */
  predicate NoNul(s: string) {
    forall i :: 0 <= i < |s| ==> s[i] != '\0'
  }

  /** The command line as intended: `command`, then " " + argv[idx] for idx in order. */
  function JoinCmd(command: string, args: seq<string>): string {
    if |args| == 0 then command
    else JoinCmd(command, args[..|args| - 1]) + " " + args[|args| - 1]
  }

  /** An independent, left-to-right reading of the same layout: the separators and arguments after the program path. */
  function Spaced(args: seq<string>): string {
    if |args| == 0 then "" else " " + args[0] + Spaced(args[1..])
  }

  lemma {:induction false} JoinCmdIsCommandThenSpaced(command: string, args: seq<string>)
    ensures JoinCmd(command, args) == command + Spaced(args)
    decreases |args|
  {
    if |args| > 0 {
      var n := |args| - 1;
      assert args[..n] + [args[n]] == args;
      calc {
        JoinCmd(command, args);
        JoinCmd(command, args[..n]) + " " + args[n];
        { JoinCmdIsCommandThenSpaced(command, args[..n]); }
        command + Spaced(args[..n]) + " " + args[n];
        command + (Spaced(args[..n]) + " " + args[n]);
        { SpacedSnoc(args[..n], args[n]); }
        command + Spaced(args);
      }
    }
  }

  lemma {:induction false} SpacedSnoc(args: seq<string>, a: string)
    ensures Spaced(args + [a]) == Spaced(args) + " " + a
    decreases |args|
  {
    if |args| == 0 {
      assert args + [a] == [a];
      assert Spaced([a][1..]) == "";
    } else {
      assert (args + [a])[1..] == args[1..] + [a];
      SpacedSnoc(args[1..], a);
    }
  }

  /** Appending an argument never shortens the command line, so the first piece that overflows ends every longer prefix too. */
  lemma {:induction false} JoinCmdGrows(command: string, args: seq<string>, k: nat)
    requires k <= |args|
    ensures |JoinCmd(command, args[..k])| <= |JoinCmd(command, args)|
    ensures JoinCmd(command, args[..k]) <= JoinCmd(command, args)
    decreases |args| - k
  {
    if k < |args| {
      var n := |args| - 1;
      assert args[..n][..k] == args[..k];
      JoinCmdGrows(command, args[..n], k);
    } else {
      assert args[..k] == args;
    }
  }

  lemma {:induction false} JoinCmdNoNul(command: string, args: seq<string>)
    requires NoNul(command)
    requires forall i :: 0 <= i < |args| ==> NoNul(args[i])
    ensures NoNul(JoinCmd(command, args))
    decreases |args|
  {
    if |args| > 0 {
      JoinCmdNoNul(command, args[..|args| - 1]);
    }
  }

  /** strlen: the index of the first NUL, or the whole length when there is none. */
  function StrLen(s: seq<char>): (n: nat)
    ensures n <= |s|
    ensures forall i :: 0 <= i < n ==> s[i] != '\0'
    ensures n < |s| ==> s[n] == '\0'
  {
    if |s| == 0 || s[0] == '\0' then 0 else 1 + StrLen(s[1..])
  }

  /** sprintf_s(buf + at, cap, "%s", text): on success the text and its NUL are stored and |text| is returned;
      when text and NUL do not fit in cap, the buffer is set to the empty string and -1 is returned. */
  method FormatInto(buf: array<char>, at: nat, cap: nat, text: string) returns (n: int)
    requires 0 < cap && at + cap == buf.Length
    modifies buf
    ensures n == (if |text| < cap then |text| else -1)
    ensures n >= 0 ==> buf[..at + n] == old(buf[..at]) + text && buf[at + n] == '\0'
    ensures n < 0 ==> buf[..at] == old(buf[..at]) && buf[at] == '\0'
  {
    if |text| < cap {
      forall i | 0 <= i < |text| {
        buf[at + i] := text[i];
      }
      buf[at + |text|] := '\0';
      n := |text|;
    } else {
      buf[at] := '\0';
      n := -1;
    }
  }

  /** The result of assembling: the command line handed to CreateProcess, or the piece whose sprintf_s
      overflowed (0 is the program path, idx + 1 is argv[idx]); the CRT's default handler then ends the process. */
  datatype Assembly = CommandLine(line: string) | Overflow(piece: nat)

  method AssembleCommandLine(command: string, args: seq<string>) returns (r: Assembly)
    requires NoNul(command)
    requires forall i :: 0 <= i < |args| ==> NoNul(args[i])
    ensures r.CommandLine? <==> |JoinCmd(command, args)| + 1 <= CmdLineSize
    ensures r.CommandLine? ==> r.line == JoinCmd(command, args)
    ensures r.Overflow? ==> r.piece <= |args| && |JoinCmd(command, args[..r.piece])| + 1 > CmdLineSize
    ensures r.Overflow? ==> forall k :: 0 <= k < r.piece ==> |JoinCmd(command, args[..k])| + 1 <= CmdLineSize
  {
    var cmdline := new char[CmdLineSize];
    var n := FormatInto(cmdline, 0, CmdLineSize, command);
    if n < 0 {
      OverflowAt(command, args, 0);
      return Overflow(0);
    }
    assert cmdline[..n] == JoinCmd(command, args[..0]) by { assert args[..0] == []; }
    r := AppendArguments(cmdline, n, command, args);
  }

  /** The for loop over argv, behind the program path already in cmdline[..p]. */
  method AppendArguments(cmdline: array<char>, p: nat, command: string, args: seq<string>) returns (r: Assembly)
    requires cmdline.Length == CmdLineSize
    requires NoNul(command)
    requires forall i :: 0 <= i < |args| ==> NoNul(args[i])
    requires p == |JoinCmd(command, args[..0])| < CmdLineSize
    requires cmdline[..p] == JoinCmd(command, args[..0]) && cmdline[p] == '\0'
    modifies cmdline
    ensures r.CommandLine? <==> |JoinCmd(command, args)| + 1 <= CmdLineSize
    ensures r.CommandLine? ==> r.line == JoinCmd(command, args)
    ensures r.CommandLine? ==> cmdline[..|r.line|] == r.line && cmdline[|r.line|] == '\0'
    ensures r.Overflow? ==> 0 < r.piece <= |args| && |JoinCmd(command, args[..r.piece])| + 1 > CmdLineSize
    ensures r.Overflow? ==> forall k :: 0 <= k < r.piece ==> |JoinCmd(command, args[..k])| + 1 <= CmdLineSize
  {
    var p := p;
    for idx := 0 to |args|
      invariant p == |JoinCmd(command, args[..idx])| < CmdLineSize
      invariant cmdline[..p] == JoinCmd(command, args[..idx]) && cmdline[p] == '\0'
    {
      JoinCmdNoNul(command, args[..idx]);
      var n := AppendArgument(cmdline, p, JoinCmd(command, args[..idx]), args[idx]);
      assert JoinCmd(command, args[..idx + 1]) == JoinCmd(command, args[..idx]) + " " + args[idx] by {
        assert args[..idx + 1][..idx] == args[..idx];
      }
      if n < 0 {
        OverflowAt(command, args, idx + 1);
        return Overflow(idx + 1);
      }
      p := p + n;
    }
    assert args[..|args|] == args;
    JoinCmdNoNul(command, args);
    StrLenAtTerminator(cmdline[..], p);
    r := CommandLine(cmdline[..StrLen(cmdline[..])]);
  }

  /** The first piece that does not fit: the whole line does not fit either, and every earlier piece did. */
  lemma OverflowAt(command: string, args: seq<string>, piece: nat)
    requires piece <= |args| && |JoinCmd(command, args[..piece])| + 1 > CmdLineSize
    requires piece > 0 ==> |JoinCmd(command, args[..piece - 1])| < CmdLineSize
    ensures |JoinCmd(command, args)| + 1 > CmdLineSize
    ensures forall k :: 0 <= k < piece ==> |JoinCmd(command, args[..k])| + 1 <= CmdLineSize
  {
    JoinCmdGrows(command, args, piece);
    if piece > 0 {
      PrefixesFit(command, args, piece - 1);
    }
  }

  /** One pass of the for loop: sprintf_s(p, sizeof(cmdline) - strlen(&cmdline[0]), " %s", argv[idx])
      behind the line written so far. */
  method AppendArgument(cmdline: array<char>, p: nat, ghost line: string, arg: string) returns (n: int)
    requires cmdline.Length == CmdLineSize
    requires p == |line| < CmdLineSize && NoNul(line)
    requires cmdline[..p] == line && cmdline[p] == '\0'
    modifies cmdline
    ensures n == (if |line| + 1 + |arg| < CmdLineSize then 1 + |arg| else -1)
    ensures n >= 0 ==> cmdline[..p + n] == line + " " + arg && cmdline[p + n] == '\0'
  {
    StrLenAtTerminator(cmdline[..], p);
    var room := CmdLineSize - StrLen(cmdline[..]);
    n := FormatInto(cmdline, p, room, " " + arg);
  }

  /** When the line up to argument idx fits, so does every shorter one. */
  lemma PrefixesFit(command: string, args: seq<string>, idx: nat)
    requires idx <= |args| && |JoinCmd(command, args[..idx])| < CmdLineSize
    ensures forall k :: 0 <= k <= idx ==> |JoinCmd(command, args[..k])| < CmdLineSize
  {
    forall k | 0 <= k <= idx
      ensures |JoinCmd(command, args[..k])| < CmdLineSize
    {
      JoinCmdGrows(command, args[..idx], k);
      assert args[..idx][..k] == args[..k];
    }
  }

  /** strlen finds the terminator sprintf_s stored: the remaining room it yields is the room after what is written. */
  lemma StrLenAtTerminator(s: seq<char>, p: nat)
    requires p < |s| && NoNul(s[..p]) && s[p] == '\0'
    ensures StrLen(s) == p
  {
  }

  /** Splitting at every space, keeping empty fields. This is not the child's own argument parsing,
      which also splits at tabs, merges runs of blanks and honours quotes. */
  function Split(s: string): (fields: seq<string>)
    ensures |fields| >= 1
    decreases |s|
  {
    if ' ' !in s then [s]
    else
      var i := FirstSpace(s);
      [s[..i]] + Split(s[i + 1..])
  }

  function FirstSpace(s: string): (i: nat)
    requires ' ' in s
    ensures i < |s| && s[i] == ' ' && ' ' !in s[..i]
  {
    if s[0] == ' ' then 0 else
      assert ' ' in s[1..] by { var j :| 0 <= j < |s| && s[j] == ' '; assert s[1..][j - 1] == ' '; }
      var k := FirstSpace(s[1..]);
      assert s[..k + 1] == [s[0]] + s[1..][..k];
      k + 1
  }

  lemma SplitAfterWord(w: string, rest: string)
    requires ' ' !in w
    ensures Split(w + " " + rest) == [w] + Split(rest)
  {
    var s := w + " " + rest;
    assert s[|w|] == ' ';
    assert s[..|w|] == w && s[|w| + 1..] == rest;
  }

  /** A space-free word followed by space-separated space-free arguments splits back into the word and the arguments. */
  lemma {:induction false} SplitSpaced(w: string, args: seq<string>)
    requires ' ' !in w
    requires forall i :: 0 <= i < |args| ==> ' ' !in args[i]
    ensures Split(w + Spaced(args)) == [w] + args
    decreases |args|
  {
    if |args| == 0 {
      assert w + Spaced(args) == w;
    } else {
      var tail := args[1..];
      var rest := args[0] + Spaced(tail);
      assert Split(w + Spaced(args)) == [w] + Split(rest) by {
        assert w + Spaced(args) == w + " " + rest;
        SplitAfterWord(w, rest);
      }
      assert Split(rest) == [args[0]] + tail by {
        assert forall i :: 0 <= i < |tail| ==> ' ' !in tail[i] by {
          forall i | 0 <= i < |tail| ensures ' ' !in tail[i] { assert tail[i] == args[i + 1]; }
        }
        SplitSpaced(args[0], tail);
      }
      assert [args[0]] + tail == args;
    }
  }

  /** When neither the path nor any argument holds a space, splitting the line at every space,
      keeping empty fields, gives back exactly the path and the arguments. */
  lemma SplitJoinCmd(command: string, args: seq<string>)
    requires ' ' !in command
    requires forall i :: 0 <= i < |args| ==> ' ' !in args[i]
    ensures Split(JoinCmd(command, args)) == [command] + args
  {
    JoinCmdIsCommandThenSpaced(command, args);
    SplitSpaced(command, args);
  }

  /** No quoting is added, so a path or argument holding a space cannot be told apart from two words. */
  lemma SpacesAreAmbiguous()
    ensures JoinCmd("a b", []) == JoinCmd("a", ["b"])
  {
    assert ["b"][..0] == [];
  }
}
