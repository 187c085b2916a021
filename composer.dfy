/** The installation script: the install command adapted to the target's
    package manager and, for a non-root login, wrapped in a password-fed sudo. */
module Composer {
  import opened GoStrings

  /** The two fields of a registry entry that the handler reads. */
  datatype Server = Server(rootUsername: string, rootPassword: string)

  const AptInstall: string := "apt install -y"
  const ApkAdd: string := "apk add"

  /** The apt-to-apk rewrite of the root branch. */
  function ToApk(c: string): string {
    ReplaceAll(c, AptInstall, ApkAdd)
  }

  /** The apk-to-apt rewrite of the non-root branch. */
  function ToApt(c: string): string {
    ReplaceAll(c, ApkAdd, AptInstall)
  }

  /** The script sent to the server, and installCommand as it stands after
      the branch has rewritten it. */
  datatype Composed = Composed(script: string, installCommand: string)

  /** What the non-root script writes before the install command. */
  function SudoPrefix(password: string): string {
    "echo '" + password + "' | sudo -S apt update && echo '" + password + "' | sudo -S "
  }

  function Compose(server: Server, installCommand: string): Composed {
    if server.rootUsername == "root" then
      var c := ToApk(installCommand);
      Composed("apk update && " + c, c)
    else
      var c := ToApt(installCommand);
      Composed(SudoPrefix(server.rootPassword) + c, c)
  }

  /** The strings.Builder part of the handler: the script is written piece by
      piece while installCommand is rewritten in place. */
  method BuildScript(server: Server, installCommand: string) returns (script: string, command: string)
    ensures Composed(script, command) == Compose(server, installCommand)
    ensures server.rootUsername == "root" ==> script == "apk update && " + command
    ensures server.rootUsername != "root" ==> script == SudoPrefix(server.rootPassword) + command
  {
    script := "";
    command := installCommand;
    if server.rootUsername == "root" {
      script := script + "apk update && ";
      command := ReplaceAll(command, AptInstall, ApkAdd);
      script := script + command;
    } else {
      script := script + "echo '";
      script := script + server.rootPassword;
      script := script + "' | sudo -S apt update && echo '";
      script := script + server.rootPassword;
      script := script + "' | sudo -S ";
      command := ReplaceAll(command, ApkAdd, AptInstall);
      script := script + command;
    }
  }

  /** A command the handler can build: the apt verb, a space, and a tail that
      either holds no 'a' (every catalog verb) or no space (a sanitized name). */
  predicate Canonical(c: string) {
    && |c| >= |AptInstall| + 1
    && c[..|AptInstall| + 1] == AptInstall + " "
    && ('a' !in c[|AptInstall| + 1..] || ' ' !in c[|AptInstall| + 1..])
  }

  /** Neither verb can begin inside " " + t when t holds no 'a' or no space. */
  lemma {:induction false} VerbAbsentFromTail(t: string, pat: string)
    requires pat == AptInstall || pat == ApkAdd
    requires 'a' !in t || ' ' !in t
    ensures !Occurs(" " + t, pat)
  {
    var u := " " + t;
    if 'a' !in t {
      AbsentWhenCharMissing(u, pat, 'a');
    } else {
      AbsentWhenCharMissing(t, pat, ' ');
    }
  }

  /** "apk add" cannot begin inside "apt install -y": its 'k' is not there,
      and the last two characters of the verb are not 'a'. */
  lemma ApkAddNotInAptVerb(u: string)
    requires !Occurs(u, ApkAdd)
    ensures !Occurs(AptInstall + u, ApkAdd)
  {
    var s := AptInstall + u;
    forall i: nat | i < 14 ensures !MatchAt(s, ApkAdd, i) {
      if i + 7 <= |s| {
        if i < 12 {
          assert s[i + 2] == AptInstall[i + 2];
          assert AptInstall[i + 2] != 'k';
          assert s[i..i + 7][2] == s[i + 2];
        } else {
          assert s[i] == AptInstall[i];
          assert AptInstall[i] != 'a';
          assert s[i..i + 7][0] == s[i];
        }
      }
    }
    forall i: nat | 14 <= i && MatchAt(s, ApkAdd, i) ensures MatchAt(u, ApkAdd, i - 14) {
      assert s[i..i + 7] == u[i - 14..i - 14 + 7];
    }
  }

  /** Translation round trip: on every command the handler can build, the
      apk-to-apt rewrite changes nothing, apt-to-apk swaps the verb and
      nothing else, and apk-to-apt then restores the original. */
  lemma TranslationRoundTrip(c: string)
    requires Canonical(c)
    ensures ToApk(c) == ApkAdd + c[|AptInstall|..]
    ensures ToApt(c) == c
    ensures ToApt(ToApk(c)) == c
  {
    var u := c[|AptInstall|..];
    var t := c[|AptInstall| + 1..];
    assert u == " " + t;
    assert c == AptInstall + u;
    VerbAbsentFromTail(t, AptInstall);
    VerbAbsentFromTail(t, ApkAdd);
    ReplaceAllLeadingMatch(AptInstall, u, ApkAdd);
    ReplaceAllAbsent(u, AptInstall, ApkAdd);
    ReplaceAllLeadingMatch(ApkAdd, u, AptInstall);
    ReplaceAllAbsent(u, ApkAdd, AptInstall);
    ApkAddNotInAptVerb(u);
    ReplaceAllAbsent(c, ApkAdd, AptInstall);
  }

  /** Root branch: an update through apk, then the command with its verb
      turned into "apk add". */
  lemma RootScript(server: Server, c: string)
    requires server.rootUsername == "root" && Canonical(c)
    ensures Compose(server, c).installCommand == ApkAdd + c[|AptInstall|..]
    ensures Compose(server, c).script == "apk update && " + ApkAdd + c[|AptInstall|..]
  {
    TranslationRoundTrip(c);
  }

  /** Non-root branch: the sudo wrapper fed the password twice, then the
      command exactly as it was built. */
  lemma NonRootScript(server: Server, c: string)
    requires server.rootUsername != "root" && Canonical(c)
    ensures Compose(server, c).installCommand == c
    ensures Compose(server, c).script ==
      "echo '" + server.rootPassword + "' | sudo -S apt update && echo '"
      + server.rootPassword + "' | sudo -S " + c
  {
    TranslationRoundTrip(c);
  }
}
