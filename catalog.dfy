/** The curated software table and the lookup of a selection in it. */
module Catalog {
  import opened Wrappers

  datatype Software = Software(name: string, description: string, command: string)

  /** The apt verb every catalog command starts with. */
  const AptVerb: string := "apt install -y "

  /** The ten packages offered for selection, with their apt install commands. */
  const CommonSoftware: seq<Software> := [
    Software("nginx", "Web server", AptVerb + "nginx"),
    Software("python3", "Python programming language", AptVerb + "python3"),
    Software("nodejs", "JavaScript runtime", AptVerb + "nodejs npm"),
    Software("git", "Version control system", AptVerb + "git"),
    Software("docker", "Container platform", AptVerb + "docker.io"),
    Software("postgresql", "SQL database", AptVerb + "postgresql postgresql-contrib"),
    Software("mysql", "MySQL database", AptVerb + "mysql-server mysql-client"),
    Software("vim", "Text editor", AptVerb + "vim"),
    Software("curl", "Command line tool for transferring data", AptVerb + "curl"),
    Software("wget", "Command line tool for retrieving files", AptVerb + "wget")
  ]

  /** Entry i is the first whose name equals `name`. */
  predicate FirstMatch(table: seq<Software>, name: string, i: nat) {
    && i < |table| && table[i].name == name
    && forall j :: 0 <= j < i ==> table[j].name != name
  }

  /** The command of the first entry named `name`, if there is one. */
  function Lookup(table: seq<Software>, name: string): Option<string>
    decreases |table|
  {
    if |table| == 0 then None
    else if table[0].name == name then Some(table[0].command)
    else Lookup(table[1..], name)
  }

  /** Lookup is an exact linear search: it finds something exactly when some
      entry has the name, and then it is the command of the first such entry. */
  lemma {:induction false} LookupSpec(table: seq<Software>, name: string)
    ensures Lookup(table, name).Some? <==> exists i :: 0 <= i < |table| && table[i].name == name
    ensures Lookup(table, name).Some? ==>
      exists i: nat :: FirstMatch(table, name, i) && Lookup(table, name).value == table[i].command
    decreases |table|
  {
    if |table| > 0 && table[0].name != name {
      LookupSpec(table[1..], name);
      if Lookup(table, name).Some? {
        var i: nat :| FirstMatch(table[1..], name, i) && Lookup(table, name).value == table[1..][i].command;
        assert FirstMatch(table, name, i + 1);
      } else {
        forall i | 0 <= i < |table| ensures table[i].name != name {
          if i > 0 { assert table[i] == table[1..][i - 1]; }
        }
      }
    } else if |table| > 0 {
      assert FirstMatch(table, name, 0);
    }
  }

  /** The first-match entry determines what Lookup returns. */
  lemma {:induction false} LookupAtFirstMatch(table: seq<Software>, name: string, i: nat)
    requires FirstMatch(table, name, i)
    ensures Lookup(table, name) == Some(table[i].command)
    decreases |table|
  {
    if i > 0 {
      assert FirstMatch(table[1..], name, i - 1);
      LookupAtFirstMatch(table[1..], name, i - 1);
    }
  }

  /** The loop over commonSoftware that stops at the first entry whose name
      matches the selection. */
  method FindCommand(name: string) returns (found: bool, command: string)
    ensures found <==> exists i :: 0 <= i < |CommonSoftware| && CommonSoftware[i].name == name
    ensures found ==> exists i: nat :: FirstMatch(CommonSoftware, name, i) && command == CommonSoftware[i].command
    ensures found == Lookup(CommonSoftware, name).Some?
    ensures found ==> command == Lookup(CommonSoftware, name).value
  {
    found, command := false, "";
    var i := 0;
    while i < |CommonSoftware|
      invariant 0 <= i <= |CommonSoftware|
      invariant !found
      invariant forall j :: 0 <= j < i ==> CommonSoftware[j].name != name
    {
      if CommonSoftware[i].name == name {
        command := CommonSoftware[i].command;
        found := true;
        break;
      }
      i := i + 1;
    }
    LookupSpec(CommonSoftware, name);
    if found {
      LookupAtFirstMatch(CommonSoftware, name, i);
    }
  }

  /** No two catalog entries share a name, so the first match is the only one. */
  lemma CatalogNamesDistinct()
    ensures forall i, j :: 0 <= i < j < |CommonSoftware| ==> CommonSoftware[i].name != CommonSoftware[j].name
  {
  }
}
