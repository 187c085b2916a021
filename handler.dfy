/** installSoftwareHandler, from the submitted form up to the remote call:
    validation in a fixed order, the choice of the install command, and the
    script built for the selected server. */
module Handler {
  import opened Wrappers
  import opened GoStrings
  import opened Sanitizer
  import opened Catalog
  import opened Composer

  const StatusBadRequest: int := 400
  const StatusNotFound: int := 404
  const StatusMethodNotAllowed: int := 405

  /** The request as the handler sees it: its HTTP method, the error that
      parsing the form returned (if any), and the form fields, where a field
      that was not submitted reads as "". */
  datatype Request = Request(
    httpMethod: string,
    parseError: Option<string>,
    serverIP: string,
    softwareType: string,
    commonSoftware: string,
    customSoftware: string)

  /** The arguments of the one call to runRemoteCommand. */
  datatype RemoteCall = RemoteCall(host: string, user: string, password: string, script: string)

  /** Either an HTTP error and no remote call, or the remote call to make and
      installCommand as the log will show it. */
  datatype Outcome =
    | Rejected(status: int, message: string)
    | Dispatch(call: RemoteCall, installCommand: string)

  /** The install command chosen from the form, before any rewriting. */
  datatype Choice = Chosen(command: string) | Refused(status: int, message: string)

  function Choose(softwareType: string, commonSoftware: string, customSoftware: string): Choice {
    if softwareType == "common" then
      match Lookup(CommonSoftware, commonSoftware)
      case Some(c) => Chosen(c)
      case None => Refused(StatusBadRequest, "Selected software not found")
    else if softwareType == "custom" then
      var custom := TrimSpace(customSoftware);
      if custom == "" then Refused(StatusBadRequest, "Custom software name is required")
      else Chosen("apt install -y " + Sanitize(custom))
    else Refused(StatusBadRequest, "Invalid software type")
  }

  function Handle(req: Request, registry: map<string, Server>): Outcome {
    if req.httpMethod != "POST" then Rejected(StatusMethodNotAllowed, "Method not allowed")
    else if req.parseError.Some? then Rejected(StatusBadRequest, "Error parsing form: " + req.parseError.value)
    else if req.serverIP == "" then Rejected(StatusBadRequest, "Server IP is required")
    else if req.serverIP !in registry then Rejected(StatusNotFound, "Server not found")
    else
      match Choose(req.softwareType, req.commonSoftware, req.customSoftware)
      case Refused(status, message) => Rejected(status, message)
      case Chosen(c) =>
        var server := registry[req.serverIP];
        var composed := Compose(server, c);
        Dispatch(RemoteCall(req.serverIP, server.rootUsername, server.rootPassword, composed.script),
                 composed.installCommand)
  }

  /** The handler body with its early returns. */
  method InstallSoftware(req: Request, registry: map<string, Server>) returns (outcome: Outcome)
    ensures outcome == Handle(req, registry)
  {
    if req.httpMethod != "POST" {
      return Rejected(StatusMethodNotAllowed, "Method not allowed");
    }
    if req.parseError.Some? {
      return Rejected(StatusBadRequest, "Error parsing form: " + req.parseError.value);
    }
    var serverIP := req.serverIP;
    if serverIP == "" {
      return Rejected(StatusBadRequest, "Server IP is required");
    }
    if serverIP !in registry {
      return Rejected(StatusNotFound, "Server not found");
    }
    var server := registry[serverIP];
    var installCommand: string;
    if req.softwareType == "common" {
      var found;
      found, installCommand := FindCommand(req.commonSoftware);
      if !found {
        return Rejected(StatusBadRequest, "Selected software not found");
      }
    } else if req.softwareType == "custom" {
      var customSoftware := TrimSpace(req.customSoftware);
      if customSoftware == "" {
        return Rejected(StatusBadRequest, "Custom software name is required");
      }
      customSoftware := SanitizePackageName(customSoftware);
      installCommand := "apt install -y " + customSoftware;
    } else {
      return Rejected(StatusBadRequest, "Invalid software type");
    }
    var script;
    script, installCommand := BuildScript(server, installCommand);
    outcome := Dispatch(RemoteCall(serverIP, server.rootUsername, server.rootPassword, script), installCommand);
  }

  /** The checks that must all pass before anything is sent. */
  predicate Admissible(req: Request, registry: map<string, Server>) {
    && req.httpMethod == "POST"
    && req.parseError.None?
    && req.serverIP != ""
    && req.serverIP in registry
    && (|| (req.softwareType == "common"
            && exists i :: 0 <= i < |CommonSoftware| && CommonSoftware[i].name == req.commonSoftware)
        || (req.softwareType == "custom" && !AllSpace(req.customSoftware)))
  }

  /** Each failed check is reported with its own status and message, and
      the earliest failing check wins. */
  lemma EarlyRejections(req: Request, registry: map<string, Server>)
    ensures req.httpMethod != "POST" ==> Handle(req, registry) == Rejected(405, "Method not allowed")
    ensures req.httpMethod == "POST" && req.parseError.Some? ==>
      Handle(req, registry) == Rejected(400, "Error parsing form: " + req.parseError.value)
    ensures req.httpMethod == "POST" && req.parseError.None? && req.serverIP == "" ==>
      Handle(req, registry) == Rejected(400, "Server IP is required")
    ensures req.httpMethod == "POST" && req.parseError.None? && req.serverIP != "" && req.serverIP !in registry ==>
      Handle(req, registry) == Rejected(404, "Server not found")
  {
  }

  /** Once the server is known, the software selection decides. */
  lemma SelectionRejections(req: Request, registry: map<string, Server>)
    requires req.httpMethod == "POST" && req.parseError.None? && req.serverIP in registry && req.serverIP != ""
    ensures req.softwareType != "common" && req.softwareType != "custom" ==>
      Handle(req, registry) == Rejected(400, "Invalid software type")
    ensures (&& req.softwareType == "common"
             && forall i :: 0 <= i < |CommonSoftware| ==> CommonSoftware[i].name != req.commonSoftware) ==>
      Handle(req, registry) == Rejected(400, "Selected software not found")
    ensures req.softwareType == "custom" && AllSpace(req.customSoftware) ==>
      Handle(req, registry) == Rejected(400, "Custom software name is required")
  {
    LookupSpec(CommonSoftware, req.commonSoftware);
    TrimSpaceSpec(req.customSoftware);
  }

  /** The selection is accepted exactly when the catalog has the name or the
      custom name is not blank. */
  lemma ChooseAccepts(softwareType: string, commonSoftware: string, customSoftware: string)
    ensures Choose(softwareType, commonSoftware, customSoftware).Chosen? <==>
      || (softwareType == "common"
          && exists i :: 0 <= i < |CommonSoftware| && CommonSoftware[i].name == commonSoftware)
      || (softwareType == "custom" && !AllSpace(customSoftware))
  {
    LookupSpec(CommonSoftware, commonSoftware);
    TrimSpaceSpec(customSoftware);
  }

  /** A request is sent exactly when it passes every check, and then to the
      server it names with the registry's credentials. */
  lemma DispatchedWhenAdmissible(req: Request, registry: map<string, Server>)
    ensures Handle(req, registry).Dispatch? <==> Admissible(req, registry)
    ensures Handle(req, registry).Dispatch? ==>
      var server := registry[req.serverIP];
      Handle(req, registry).call.host == req.serverIP
      && Handle(req, registry).call.user == server.rootUsername
      && Handle(req, registry).call.password == server.rootPassword
  {
    ChooseAccepts(req.softwareType, req.commonSoftware, req.customSoftware);
  }

  /** Rejection order: each failed check is reported with its own status and
      message, the earliest failing check wins, and a request that passes
      every check is sent, with the registry's credentials, to the server
      it names. */
  lemma RejectionOrder(req: Request, registry: map<string, Server>)
    ensures req.httpMethod != "POST" ==> Handle(req, registry) == Rejected(405, "Method not allowed")
    ensures req.httpMethod == "POST" && req.parseError.Some? ==>
      Handle(req, registry) == Rejected(400, "Error parsing form: " + req.parseError.value)
    ensures req.httpMethod == "POST" && req.parseError.None? && req.serverIP == "" ==>
      Handle(req, registry) == Rejected(400, "Server IP is required")
    ensures req.httpMethod == "POST" && req.parseError.None? && req.serverIP != "" && req.serverIP !in registry ==>
      Handle(req, registry) == Rejected(404, "Server not found")
    ensures req.httpMethod == "POST" && req.parseError.None? && req.serverIP in registry && req.serverIP != "" ==>
      && (req.softwareType != "common" && req.softwareType != "custom" ==>
            Handle(req, registry) == Rejected(400, "Invalid software type"))
      && (req.softwareType == "common"
          && (forall i :: 0 <= i < |CommonSoftware| ==> CommonSoftware[i].name != req.commonSoftware) ==>
            Handle(req, registry) == Rejected(400, "Selected software not found"))
      && (req.softwareType == "custom" && AllSpace(req.customSoftware) ==>
            Handle(req, registry) == Rejected(400, "Custom software name is required"))
    ensures Handle(req, registry).Dispatch? <==> Admissible(req, registry)
    ensures Handle(req, registry).Dispatch? ==>
      var server := registry[req.serverIP];
      Handle(req, registry).call.host == req.serverIP
      && Handle(req, registry).call.user == server.rootUsername
      && Handle(req, registry).call.password == server.rootPassword
  {
    EarlyRejections(req, registry);
    if req.httpMethod == "POST" && req.parseError.None? && req.serverIP in registry && req.serverIP != "" {
      SelectionRejections(req, registry);
    }
    DispatchedWhenAdmissible(req, registry);
  }

  /** A command built from the apt verb and a tail with no 'a' is one the
      rewrites treat as a whole verb. */
  lemma CanonicalWithoutA(t: string)
    requires 'a' !in t
    ensures Canonical(AptVerb + t)
  {
    assert AptVerb == AptInstall + " ";
    var c := AptVerb + t;
    assert c[..|AptInstall| + 1] == AptInstall + " ";
    assert c[|AptInstall| + 1..] == t;
  }

  /** A proof aid: the package part of each catalog command, entry by entry,
      written out so that the lemmas below need not slice the commands;
      CatalogCommandParts ties it to the catalog. */
  const CatalogPackages: seq<string> := [
    "nginx", "python3", "nodejs npm", "git", "docker.io",
    "postgresql postgresql-contrib", "mysql-server mysql-client",
    "vim", "curl", "wget"]

  lemma CatalogCommandParts()
    ensures |CatalogPackages| == |CommonSoftware|
    ensures forall i :: 0 <= i < |CommonSoftware| ==> CommonSoftware[i].command == AptVerb + CatalogPackages[i]
  {
  }

  lemma CatalogPackagesLackA()
    ensures forall i :: 0 <= i < |CatalogPackages| ==> 'a' !in CatalogPackages[i]
  {
  }

  /** Every catalog command is the apt verb followed by package names. */
  lemma CatalogCommandsCanonical()
    ensures forall i :: 0 <= i < |CommonSoftware| ==> Canonical(CommonSoftware[i].command)
  {
    CatalogCommandParts();
    CatalogPackagesLackA();
    forall i | 0 <= i < |CommonSoftware| ensures Canonical(CommonSoftware[i].command) {
      CanonicalWithoutA(CatalogPackages[i]);
    }
  }

  /** A sanitized name is a tail with no space, so the rewrites see only the
      verb in front of it. */
  lemma CanonicalWithoutSpace(t: string)
    requires NoSpace(t)
    ensures Canonical(AptVerb + t)
  {
    assert AptVerb == AptInstall + " ";
    var c := AptVerb + t;
    assert c[..|AptInstall| + 1] == AptInstall + " ";
    assert c[|AptInstall| + 1..] == t;
  }

  /** A valid catalog selection sends the first matching entry's command:
      to a root login behind an apk update and with its verb turned into
      "apk add", to any other login behind the sudo wrapper and unchanged. */
  lemma CommonRequest(req: Request, registry: map<string, Server>, i: nat)
    requires req.httpMethod == "POST" && req.parseError.None?
    requires req.serverIP != "" && req.serverIP in registry
    requires req.softwareType == "common" && FirstMatch(CommonSoftware, req.commonSoftware, i)
    ensures var server := registry[req.serverIP];
      var command := CommonSoftware[i].command;
      var sent := if server.rootUsername == "root" then ApkAdd + command[|AptInstall|..] else command;
      var script := if server.rootUsername == "root" then "apk update && " + sent
                    else SudoPrefix(server.rootPassword) + sent;
      Handle(req, registry)
        == Dispatch(RemoteCall(req.serverIP, server.rootUsername, server.rootPassword, script), sent)
  {
    LookupAtFirstMatch(CommonSoftware, req.commonSoftware, i);
    CatalogCommandsCanonical();
    var server := registry[req.serverIP];
    if server.rootUsername == "root" {
      RootScript(server, CommonSoftware[i].command);
    } else {
      NonRootScript(server, CommonSoftware[i].command);
    }
  }

  /** The script and installCommand built around a single sanitized word. */
  lemma WordScript(server: Server, name: string)
    requires NoSpace(name)
    ensures var sent := if server.rootUsername == "root" then ApkAdd + " " + name else AptVerb + name;
      Compose(server, AptVerb + name)
        == Composed(if server.rootUsername == "root" then "apk update && " + sent
                    else SudoPrefix(server.rootPassword) + sent, sent)
  {
    CanonicalWithoutSpace(name);
    if server.rootUsername == "root" {
      RootScript(server, AptVerb + name);
      assert (AptVerb + name)[|AptInstall|..] == " " + name;
    } else {
      NonRootScript(server, AptVerb + name);
    }
  }

  /** A custom name reaches the shell only as one sanitized word after the
      install verb: no separator, quote, bracket, redirection, "||" or white
      space from the form survives in it, and every character it keeps was
      typed in the form. */
  lemma CustomRequest(req: Request, registry: map<string, Server>)
    requires req.httpMethod == "POST" && req.parseError.None?
    requires req.serverIP != "" && req.serverIP in registry
    requires req.softwareType == "custom" && !AllSpace(req.customSoftware)
    ensures var server := registry[req.serverIP];
      var name := Sanitize(TrimSpace(req.customSoftware));
      var sent := if server.rootUsername == "root" then ApkAdd + " " + name else AptVerb + name;
      var script := if server.rootUsername == "root" then "apk update && " + sent
                    else SudoPrefix(server.rootPassword) + sent;
      && Handle(req, registry)
           == Dispatch(RemoteCall(req.serverIP, server.rootUsername, server.rootPassword, script), sent)
      && NoSpace(name) && !Occurs(name, "||")
      && (forall c :: c in ForbiddenChars ==> c !in name)
      && (forall c :: c in name ==> c in req.customSoftware)
  {
    var trimmed := TrimSpace(req.customSoftware);
    TrimSpaceSpec(req.customSoftware);
    TrimSpaceKeepsChars(req.customSoftware);
    var name := Sanitize(trimmed);
    SanitizeExcludes(trimmed);
    assert Choose(req.softwareType, req.commonSoftware, req.customSoftware) == Chosen(AptVerb + name);
    WordScript(registry[req.serverIP], name);
  }

  /** Installing nginx from the catalog on a root login. */
  lemma NginxOnRoot()
    ensures var req := Request("POST", None, "10.0.0.5", "common", "nginx", "");
      var registry := map["10.0.0.5" := Server("root", "secret")];
      Handle(req, registry)
        == Dispatch(RemoteCall("10.0.0.5", "root", "secret", "apk update && apk add nginx"), "apk add nginx")
  {
    var req := Request("POST", None, "10.0.0.5", "common", "nginx", "");
    var registry := map["10.0.0.5" := Server("root", "secret")];
    assert FirstMatch(CommonSoftware, "nginx", 0);
    assert ApkAdd + CommonSoftware[0].command[|AptInstall|..] == "apk add nginx" by {
      assert CommonSoftware[0].command == AptVerb + "nginx";
      assert (AptVerb + "nginx")[|AptInstall|..] == " nginx";
    }
    assert "apk update && " + "apk add nginx" == "apk update && apk add nginx";
    CommonRequest(req, registry, 0);
  }

  /** Installing git from the catalog on an ordinary login. */
  lemma GitOnSudoLogin()
    ensures var req := Request("POST", None, "10.0.0.6", "common", "git", "");
      var registry := map["10.0.0.6" := Server("ubuntu", "pw")];
      Handle(req, registry)
        == Dispatch(RemoteCall("10.0.0.6", "ubuntu", "pw",
                               SudoPrefix("pw") + "apt install -y git"),
                    "apt install -y git")
  {
    var req := Request("POST", None, "10.0.0.6", "common", "git", "");
    var registry := map["10.0.0.6" := Server("ubuntu", "pw")];
    assert FirstMatch(CommonSoftware, "git", 3);
    CommonRequest(req, registry, 3);
    assert CommonSoftware[3].command == "apt install -y git";
  }

  /** A chained command typed as a custom name installs only its first word. */
  lemma InjectedCommandDropped()
    ensures var req := Request("POST", None, "10.0.0.6", "custom", "", "foo; rm -rf /");
      var registry := map["10.0.0.6" := Server("ubuntu", "pw")];
      Handle(req, registry).Dispatch?
      && Handle(req, registry).installCommand == "apt install -y foo"
  {
    var req := Request("POST", None, "10.0.0.6", "custom", "", "foo; rm -rf /");
    var registry := map["10.0.0.6" := Server("ubuntu", "pw")];
    TrimSpaceTrimmed("foo; rm -rf /");
    SanitizeDropsInjectedCommand();
    assert !AllSpace(req.customSoftware) by { assert !IsSpace(req.customSoftware[0]); }
    CustomRequest(req, registry);
  }

  /** A custom name made only of forbidden characters passes the emptiness
      check, which runs before sanitizing, and is sent as a bare install verb. */
  lemma OnlySeparatorsStillSent()
    ensures var req := Request("POST", None, "10.0.0.6", "custom", "", ";");
      var registry := map["10.0.0.6" := Server("ubuntu", "pw")];
      Handle(req, registry).Dispatch?
      && Handle(req, registry).installCommand == "apt install -y "
  {
    var req := Request("POST", None, "10.0.0.6", "custom", "", ";");
    var registry := map["10.0.0.6" := Server("ubuntu", "pw")];
    TrimSpaceTrimmed(";");
    OnlyForbiddenGivesEmpty(";");
    assert !AllSpace(req.customSoftware) by { assert !IsSpace(req.customSoftware[0]); }
    CustomRequest(req, registry);
  }
}
