/** The installation log shown to the operator after the remote call. */
module Reporter {
  import opened Wrappers

  /** The package, check-mark and cross-mark emoji that open the header and
      the two outcome lines. */
  const PackageMark: char := '\U{1F4E6}'
  const SuccessMark: char := '\U{2705}'
  const FailureMark: char := '\U{274C}'

  const Header: string := [PackageMark] + " Software Installation Log\n\n"
  const SuccessLine: string := [SuccessMark] + " Installation command executed successfully\n\n"
  const FailureLead: string := [FailureMark] + " Installation failed: "
  const OutputLead: string := "Output:\n"

  /** The header and the server and command lines. */
  function Preamble(serverIP: string, installCommand: string): string {
    Header + ("Server: " + serverIP + "\n") + ("Command: " + installCommand + "\n\n")
  }

  /** The failure line carrying the error text, or the success line. */
  function OutcomeLine(err: Option<string>): string {
    match err
    case Some(e) => FailureLead + e + "\n\n"
    case None => SuccessLine
  }

  function Log(serverIP: string, installCommand: string, output: string, err: Option<string>): string {
    Preamble(serverIP, installCommand) + OutcomeLine(err) + (OutputLead + output)
  }

  /** The logBuilder part of the handler; `err` is the message of the error
      the remote call returned, if any, and `output` what it captured. */
  method RenderLog(serverIP: string, installCommand: string, output: string, err: Option<string>)
    returns (log: string)
    ensures log == Log(serverIP, installCommand, output, err)
  {
    log := "";
    log := log + Header;
    log := log + ("Server: " + serverIP + "\n");
    log := log + ("Command: " + installCommand + "\n\n");
    if err.Some? {
      log := log + (FailureLead + err.value + "\n\n");
    } else {
      log := log + SuccessLine;
    }
    log := log + (OutputLead + output);
  }

  /** The log opens with the fixed header and ends with "Output:\n" followed
      by the remote output, verbatim. */
  lemma LogFrame(serverIP: string, installCommand: string, output: string, err: Option<string>)
    ensures var log := Log(serverIP, installCommand, output, err);
      && |log| >= |Header| + |OutputLead| + |output|
      && log[..|Header|] == Header
      && log[|log| - |output| - |OutputLead|..] == OutputLead + output
      && log[|log| - |output|..] == output
  {
    Frame(Header, "Server: " + serverIP + "\n", "Command: " + installCommand + "\n\n",
          OutcomeLine(err), OutputLead, output);
  }

  /** Exactly one of the two outcome lines appears, right after the command
      line: the failure mark when the remote call failed (followed by its
      error text), the success mark otherwise. */
  lemma LogOutcomeMarker(serverIP: string, installCommand: string, output: string, err: Option<string>)
    ensures var log := Log(serverIP, installCommand, output, err);
      var p := |Preamble(serverIP, installCommand)|;
      && p < |log|
      && (log[p] == FailureMark <==> err.Some?)
      && (log[p] == SuccessMark <==> err.None?)
      && (err.Some? ==> log[p..p + |FailureLead| + |err.value|] == FailureLead + err.value)
      && (err.None? ==> log[p..p + |SuccessLine|] == SuccessLine)
  {
    var pre := Preamble(serverIP, installCommand);
    var line := OutcomeLine(err);
    var rest := line + (OutputLead + output);
    Assoc(pre, line, OutputLead + output);
    Split(pre, rest);
    Split(line, OutputLead + output);
    assert FailureLead[0] == FailureMark && SuccessLine[0] == SuccessMark;
    match err
    case Some(e) =>
      Split(FailureLead + e, "\n\n");
      PrefixOfPrefix(pre, rest, line, FailureLead + e);
    case None =>
      PrefixOfPrefix(pre, rest, line, SuccessLine);
  }

  /** For a given server and command, two runs with the same error text
      logged the same output, and two runs with the same output logged the
      same error (or both none). */
  lemma LogDeterminesOutcome(serverIP: string, installCommand: string,
                             output1: string, err1: Option<string>,
                             output2: string, err2: Option<string>)
    requires Log(serverIP, installCommand, output1, err1) == Log(serverIP, installCommand, output2, err2)
    ensures err1 == err2 ==> output1 == output2
    ensures output1 == output2 ==> err1 == err2
  {
    var pre := Preamble(serverIP, installCommand);
    var line1, line2 := OutcomeLine(err1), OutcomeLine(err2);
    Assoc(pre, line1, OutputLead + output1);
    Assoc(pre, line2, OutputLead + output2);
    CancelFront(pre, line1 + (OutputLead + output1), line2 + (OutputLead + output2));
    if err1 == err2 {
      CancelFront(line1, OutputLead + output1, OutputLead + output2);
      CancelFront(OutputLead, output1, output2);
    }
    if output1 == output2 {
      CancelBack(line1, line2, OutputLead + output1);
      OutcomeLineInjective(err1, err2);
    }
  }

  /** Distinct outcomes give distinct outcome lines. */
  lemma OutcomeLineInjective(err1: Option<string>, err2: Option<string>)
    requires OutcomeLine(err1) == OutcomeLine(err2)
    ensures err1 == err2
  {
    assert FailureLead[0] == FailureMark && SuccessLine[0] == SuccessMark;
    assert OutcomeLine(err1)[0] == OutcomeLine(err2)[0];
    if err1.Some? && err2.Some? {
      var n := |OutcomeLine(err1)| - 2;
      assert err1.value == OutcomeLine(err1)[|FailureLead|..n];
      assert err2.value == OutcomeLine(err2)[|FailureLead|..n];
    }
  }

  /** The two halves of a concatenation. */
  lemma Split(a: string, b: string)
    ensures |a + b| == |a| + |b|
    ensures (a + b)[..|a|] == a && (a + b)[|a|..] == b
  {
  }

  /** A prefix of the part after `a` is read at the matching offset. */
  lemma PrefixOfPrefix(a: string, rest: string, line: string, front: string)
    requires |front| <= |line| <= |rest|
    requires rest[..|line|] == line && line[..|front|] == front
    ensures (a + rest)[|a|..|a| + |front|] == front
    ensures |front| > 0 ==> (a + rest)[|a|] == front[0]
  {
    assert (a + rest)[|a|..|a| + |front|] == rest[..|front|];
    assert rest[..|front|] == line[..|front|];
    if |front| > 0 {
      assert (a + rest)[|a|] == rest[0];
      assert rest[0] == line[0];
    }
  }

  lemma CancelFront(a: string, x: string, y: string)
    requires a + x == a + y
    ensures x == y
  {
    assert x == (a + x)[|a|..];
    assert y == (a + y)[|a|..];
  }

  lemma CancelBack(x: string, y: string, b: string)
    requires x + b == y + b
    ensures x == y
  {
    assert x == (x + b)[..|x|];
    assert |x| == |y|;
    assert y == (y + b)[..|y|];
  }

  lemma Assoc(a: string, b: string, c: string)
    ensures (a + b) + c == a + (b + c)
  {
  }

  /** The head and the tail of a log laid out as its six parts. */
  lemma Frame(head: string, a: string, b: string, line: string, lead: string, out: string)
    ensures var log := head + a + b + line + (lead + out);
      && |log| >= |head| + |lead| + |out|
      && log[..|head|] == head
      && log[|log| - |out| - |lead|..] == lead + out
      && log[|log| - |out|..] == out
  {
    var log := head + a + b + line + (lead + out);
    assert log == head + (a + b + line + lead + out);
    assert log == (head + a + b + line + lead) + out;
  }
}
