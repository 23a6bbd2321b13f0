/**
 * The one-time password shell receiver: the configured command is cut into the file to run
 * and its arguments at the first space, and the password is the trimmed output of a process
 * that exits with code 0 and prints something that is not blank. The process is given by the
 * lines it prints and its exit code.
 */
module OtpShell {
  import opened Wrappers
  import opened Strings

  /** The receiver's two read-only fields. */
  datatype OtpShellReceiver = OtpShellReceiver(fileName: string, args: string)

  /** The constructor: the file is the command up to its first space, the arguments what follows that space. */
  function NewReceiver(shellCommand: string): (r: OtpShellReceiver)
    ensures ' ' !in shellCommand ==> r.fileName == shellCommand && r.args == ""
    ensures ' ' in shellCommand ==> r.fileName + " " + r.args == shellCommand && ' ' !in r.fileName
  {
    if ' ' !in shellCommand then OtpShellReceiver(shellCommand, "")
    else
      var i := FirstIndex(shellCommand, ' ');
      assert shellCommand == shellCommand[..i] + " " + shellCommand[i + 1..];
      OtpShellReceiver(shellCommand[..i], shellCommand[i + 1..])
  }

  /** A file name without spaces and any arguments, joined by a space, split back into the two. */
  lemma {:induction false} NewReceiverInverts(fileName: string, args: string)
    requires ' ' !in fileName
    ensures NewReceiver(fileName + " " + args) == OtpShellReceiver(fileName, args)
  {
    var command := fileName + " " + args;
    assert command[|fileName|] == ' ';
    var i := FirstIndex(command, ' ');
    assert command[..|fileName|] == fileName;
    assert command[i + 1..] == args;
  }

  /** What the StringBuilder holds after AppendLine of each line: the line, then the platform's newline. */
  function Captured(lines: seq<string>, newLine: string): string
  {
    if lines == [] then "" else Captured(lines[..|lines| - 1], newLine) + lines[|lines| - 1] + newLine
  }

  /** Trimming leaves a blank string exactly when the string was blank. */
  lemma {:induction false} BlankTrim(s: string)
    ensures IsBlank(Trim(s)) <==> IsBlank(s)
  {
    TrimEmpty(s);
    TrimPiece(s);
  }

  /**
   * TryGetOneTimePassword once the process has run: the output is read line by line into a
   * builder; a nonzero exit code or a blank output gives no password, anything else the output
   * trimmed.
   */
  method TryGetOneTimePassword(lines: seq<string>, exitCode: int, newLine: string) returns (gotten: bool, otp: Option<string>)
    ensures gotten <==> exitCode == 0 && !IsBlank(Captured(lines, newLine))
    ensures otp == if gotten then Some(Trim(Captured(lines, newLine))) else None
  {
    var builder := "";
    var i := 0;
    while i < |lines|
      invariant 0 <= i <= |lines|
      invariant builder == Captured(lines[..i], newLine)
    {
      assert lines[..i + 1][..i] == lines[..i];
      builder := builder + lines[i] + newLine;
      i := i + 1;
    }
    assert lines[..i] == lines;
    if exitCode != 0 {
      return false, None;
    }
    var result := Trim(builder);
    BlankTrim(builder);
    if IsBlank(result) {
      return false, None;
    }
    return true, Some(result);
  }

  /**
   * TryGetOneTimePasswordAsync: a process that cannot be started throws, which the wrapper
   * turns into no password, as it does a password not gotten.
   */
  method TryGetOneTimePasswordAsync(started: bool, lines: seq<string>, exitCode: int, newLine: string)
    returns (gotten: bool, otp: Option<string>)
    ensures gotten <==> otp.Some?
    ensures gotten <==> started && exitCode == 0 && !IsBlank(Captured(lines, newLine))
    ensures otp.Some? ==> otp.value == Trim(Captured(lines, newLine))
  {
    if !started {
      return false, None;
    }
    var ok, pass := TryGetOneTimePassword(lines, exitCode, newLine);
    if pass.None? {
      return false, None;
    }
    return true, pass;
  }

  /** A password gotten is not empty, has no white space at its ends, and only white space around it in the output. */
  lemma {:induction false} PasswordIsTrimmedOutput(lines: seq<string>, newLine: string)
    requires !IsBlank(Captured(lines, newLine))
    ensures var s := Captured(lines, newLine); var t := Trim(s);
      && |t| > 0 && !IsWhiteSpace(t[0]) && !IsWhiteSpace(t[|t| - 1])
      && exists a, b :: 0 <= a <= b <= |s| && t == s[a..b] && IsBlank(s[..a]) && IsBlank(s[b..])
  {
    var s := Captured(lines, newLine);
    TrimEmpty(s);
    TrimPiece(s);
  }

  /** TrimEnd removes a blank tail and stops at a last character that is not white space. */
  lemma {:induction false} TrimEndBlankTail(code: string, tail: string)
    requires |code| > 0 && !IsWhiteSpace(code[|code| - 1])
    requires IsBlank(tail)
    ensures TrimEnd(code + tail) == code
    decreases |tail|
  {
    var s := code + tail;
    if |tail| == 0 {
      assert s == code;
    } else {
      assert s[|s| - 1] == tail[|tail| - 1];
      assert s[..|s| - 1] == code + tail[..|tail| - 1];
      TrimEndBlankTail(code, tail[..|tail| - 1]);
    }
  }

  /** A process that prints one code without white space at its ends and exits with 0 gives that code. */
  lemma {:induction false} SingleLineCode(code: string, newLine: string)
    requires |code| > 0 && !IsWhiteSpace(code[0]) && !IsWhiteSpace(code[|code| - 1])
    requires IsBlank(newLine)
    ensures Trim(Captured([code], newLine)) == code
    ensures !IsBlank(Captured([code], newLine))
  {
    var s := Captured([code], newLine);
    assert s == code + newLine by {
      assert [code][..0] == [];
    }
    assert s[0] == code[0];
    assert TrimStart(s) == s;
    TrimEndBlankTail(code, newLine);
  }
}
