/** pkg/modules/targets.go: expanding the user's target specification into
    module targets, and the two resolution helpers. The file system and the
    resolver are parameters: `open` stands for os.Open plus the bufio.Scanner
    that reads it, `Resolver` for net.ParseIP, net.LookupIP and net.LookupAddr. */
module Targets {
  import opened Errors
  import opened Text
  import opened Shapes

  /** Given by the user: a single host, or a file with one host per line. */
  datatype Targets = Targets(host: string, hostFile: string)

  /** Given to each module run: an IP or a host name. */
  datatype ModuleTarget = ModuleTarget(host: string)

  /** reflect's view of `Targets`, tags included. */
  const TargetsType: Type := StructType("Targets", [
    Field("Host", "Host of the target (e.g., IP, hostname)", StringType("string")),
    Field("HostFile", "Path to a file that contains multiple hosts", StringType("string"))
  ])

  /** The result of opening a host file: the lines the scanner yields before
      it stops, the error that stopped it and the error of the deferred Close,
      or the error of the open itself. */
  datatype OpenResult =
    | Opened(lines: seq<string>, scanErr: Option<string>, closeErr: Option<string>)
    | CannotOpen(reason: string)

  /** The targets a host file's lines produce: each line trimmed, blank lines
      skipped, in file order. */
  function FileTargets(lines: seq<string>): seq<ModuleTarget>
  {
    if lines == [] then []
    else
      var line := TrimSpace(lines[|lines| - 1]);
      FileTargets(lines[..|lines| - 1]) + (if line != "" then [ModuleTarget(line)] else [])
  }

  /** The outcome of GetTargets as one value: (targets, error). */
  function ExpandTargets(targets: Targets, open: string -> OpenResult): (seq<ModuleTarget>, Option<Error>)
  {
    if targets.hostFile != "" then
      match open(targets.hostFile)
      case CannotOpen(reason) => ([], Some(OpenFailed(reason)))
      case Opened(lines, _, _) => (FileTargets(lines), None)
    else if targets.host == "" then ([], Some(EmptyHost))
    else ([ModuleTarget(targets.host)], None)
  }

  /** GetTargets. A non-empty HostFile wins over Host. */
  method GetTargets(targets: Targets, open: string -> OpenResult)
    returns (outTargets: seq<ModuleTarget>, err: Option<Error>)
    ensures targets.hostFile != "" && open(targets.hostFile).CannotOpen? ==>
              outTargets == [] && err == Some(OpenFailed(open(targets.hostFile).reason))
    ensures targets.hostFile != "" && open(targets.hostFile).Opened? ==>
              outTargets == FileTargets(open(targets.hostFile).lines) && err == None
    ensures targets.hostFile == "" && targets.host == "" ==> outTargets == [] && err == Some(EmptyHost)
    ensures targets.hostFile == "" && targets.host != "" ==>
              outTargets == [ModuleTarget(targets.host)] && err == None
    ensures (outTargets, err) == ExpandTargets(targets, open)
  {
    outTargets := [];
    if targets.hostFile != "" {
      var file := open(targets.hostFile);
      if file.CannotOpen? {
        return [], Some(OpenFailed(file.reason));
      }
      var fileCloseErr: Option<Error> := None;
      // the scanner's `lines`; its error (`file.scanErr`) is never consulted
      var lines := file.lines;
      for i := 0 to |lines|
        invariant outTargets == FileTargets(lines[..i])
      {
        assert lines[..i + 1][..i] == lines[..i];
        var line := TrimSpace(lines[i]);
        if line != "" {
          outTargets := outTargets + [ModuleTarget(line)];
        }
      }
      assert lines[..|lines|] == lines;
      // `return outTargets, fileCloseErr` evaluates both results before the
      // deferred Close assigns `fileCloseErr`, so that assignment is lost
      err := fileCloseErr;
      if file.closeErr.Some? {
        fileCloseErr := Some(OpenFailed(file.closeErr.value));
      }
      return;
    }
    if targets.host == "" {
      return [], Some(EmptyHost);
    }
    outTargets := [ModuleTarget(targets.host)];
    err := None;
  }

  /** Reading a file in two parts yields the targets of each part, in order. */
  lemma {:induction false} FileTargetsAppend(a: seq<string>, b: seq<string>)
    ensures FileTargets(a + b) == FileTargets(a) + FileTargets(b)
    decreases |b|
  {
    if b == [] {
      assert a + b == a;
    } else {
      var b' := b[..|b| - 1];
      assert (a + b)[..|a + b| - 1] == a + b';
      FileTargetsAppend(a, b');
    }
  }

  /** Every target read from a file is a trimmed, non-blank line of it. */
  lemma {:induction false} FileTargetsAreTrimmedLines(lines: seq<string>)
    ensures forall t :: t in FileTargets(lines) ==>
              t.host != "" && !IsSpace(t.host[0]) && !IsSpace(t.host[|t.host| - 1])
              && exists i :: 0 <= i < |lines| && t.host == TrimSpace(lines[i])
  {
    if lines != [] {
      var n := |lines| - 1;
      var p := lines[..n];
      var line := TrimSpace(lines[n]);
      FileTargetsAreTrimmedLines(p);
      assert FileTargets(lines) == FileTargets(p) + (if line != "" then [ModuleTarget(line)] else []);
      forall t | t in FileTargets(lines)
        ensures t.host != "" && !IsSpace(t.host[0]) && !IsSpace(t.host[|t.host| - 1])
        ensures exists i :: 0 <= i < |lines| && t.host == TrimSpace(lines[i])
      {
        if t in FileTargets(p) {
          var i :| 0 <= i < |p| && t.host == TrimSpace(p[i]);
          assert p[i] == lines[i];
        } else {
          assert t == ModuleTarget(line);
        }
      }
    }
  }

  /** A file with no blank lines yields one target per line. */
  lemma {:induction false} FileTargetsOnePerLine(lines: seq<string>)
    requires forall i :: 0 <= i < |lines| ==> TrimSpace(lines[i]) != ""
    ensures |FileTargets(lines)| == |lines|
    ensures forall i :: 0 <= i < |lines| ==> FileTargets(lines)[i].host == TrimSpace(lines[i])
  {
    if lines != [] {
      var n := |lines| - 1;
      var p := lines[..n];
      forall i | 0 <= i < |p| ensures TrimSpace(p[i]) != "" {
        assert p[i] == lines[i];
      }
      FileTargetsOnePerLine(p);
      assert FileTargets(lines) == FileTargets(p) + [ModuleTarget(TrimSpace(lines[n]))];
      forall i | 0 <= i < |lines| ensures FileTargets(lines)[i].host == TrimSpace(lines[i]) {
        if i < n {
          assert p[i] == lines[i];
        }
      }
    }
  }

  lemma TrimmedAddressExample()
    ensures TrimSpace("10.0.0.1") == "10.0.0.1"
    ensures TrimSpace("  10.0.0.2  ") == "10.0.0.2"
  {
    var a := "10.0.0.1";
    assert !IsSpace(a[0]) && !IsSpace(a[7]);
    assert TrimLeft(a) == a;
    assert TrimRight(a) == a;
    var s := "  10.0.0.2  ";
    var t := "10.0.0.2  ";
    assert IsSpace(s[0]) && s[1..][0] == ' ' && s[1..][1..] == t && !IsSpace(t[0]);
    assert TrimLeft(s[1..][1..]) == t;
    assert TrimLeft(s) == t;
    assert IsSpace(t[9]) && t[..9][8] == ' ' && t[..9][..8] == "10.0.0.2" && !IsSpace(t[7]);
    assert TrimRight(t[..9][..8]) == "10.0.0.2";
    assert TrimRight(t) == "10.0.0.2";
  }

  /** The file "10.0.0.1\n\n  10.0.0.2  \n", as the scanner's lines. */
  lemma FileTargetsExample()
    ensures FileTargets(["10.0.0.1", "", "  10.0.0.2  "])
            == [ModuleTarget("10.0.0.1"), ModuleTarget("10.0.0.2")]
  {
    TrimmedAddressExample();
    FileTargetsAppend(["10.0.0.1"], [""]);
    FileTargetsAppend(["10.0.0.1", ""], ["  10.0.0.2  "]);
    assert FileTargets(["10.0.0.1"]) == [ModuleTarget("10.0.0.1")] by {
      assert ["10.0.0.1"][..0] == [];
    }
    assert FileTargets([""]) == [] by {
      assert [""][..0] == [];
    }
    assert FileTargets(["  10.0.0.2  "]) == [ModuleTarget("10.0.0.2")] by {
      assert ["  10.0.0.2  "][..0] == [];
    }
    assert ["10.0.0.1"] + [""] == ["10.0.0.1", ""];
    assert ["10.0.0.1", ""] + ["  10.0.0.2  "] == ["10.0.0.1", "", "  10.0.0.2  "];
  }

  /** net.IP as the resolution helpers use it: whether To4() is non-nil, and String(). */
  datatype IP = IP(isV4: bool, text: string)

  datatype Lookup<T> = Found(results: seq<T>) | LookupError(message: string)

  /** net.ParseIP, net.LookupIP and net.LookupAddr. */
  datatype Resolver = Resolver(
    parseIP: string -> Option<IP>,
    lookupIP: string -> Lookup<IP>,
    lookupAddr: string -> Lookup<string>)

  /** The `%w` operand of the resolution errors: the lookup's error, nil when it found nothing. */
  function Cause<T>(l: Lookup<T>): Option<string>
  {
    if l.LookupError? then Some(l.message) else None
  }

  /** ModuleTarget.ResolveToIP. */
  method ResolveToIP(mt: ModuleTarget, res: Resolver) returns (ip: string, err: Option<Error>)
    ensures res.parseIP(mt.host).Some? ==> ip == res.parseIP(mt.host).value.text && err == None
    ensures res.parseIP(mt.host).None? && (res.lookupIP(mt.host).LookupError? || res.lookupIP(mt.host).results == []) ==>
              ip == "" && err == Some(ResolveHostFailed(mt.host, Cause(res.lookupIP(mt.host))))
    ensures res.parseIP(mt.host).None? && res.lookupIP(mt.host).Found? && res.lookupIP(mt.host).results != [] ==>
              var ips := res.lookupIP(mt.host).results;
              && err == None
              && ((exists i :: 0 <= i < |ips| && ips[i].isV4) ==>
                    exists i :: 0 <= i < |ips| && ips[i].isV4 && ip == ips[i].text
                                && forall j :: 0 <= j < i ==> !ips[j].isV4)
              && ((forall i :: 0 <= i < |ips| ==> !ips[i].isV4) ==> ip == ips[0].text)
  {
    var parsed := res.parseIP(mt.host);
    if parsed.Some? {
      return parsed.value.text, None;
    }
    var lookup := res.lookupIP(mt.host);
    if lookup.LookupError? || |lookup.results| == 0 {
      return "", Some(ResolveHostFailed(mt.host, Cause(lookup)));
    }
    var ips := lookup.results;
    for i := 0 to |ips|
      invariant forall j :: 0 <= j < i ==> !ips[j].isV4
    {
      if ips[i].isV4 {
        return ips[i].text, None;
      }
    }
    return ips[0].text, None;
  }

  /** `name` without one trailing root-label dot. */
  function StripTrailingDot(name: string): (r: string)
    ensures |name| > 0 && name[|name| - 1] == '.' ==> r + "." == name
    ensures !(|name| > 0 && name[|name| - 1] == '.') ==> r == name
  {
    if |name| > 0 && name[|name| - 1] == '.' then name[..|name| - 1] else name
  }

  /** ModuleTarget.ResolveToDomain: (name, error). */
  function ResolveToDomain(mt: ModuleTarget, res: Resolver): (r: (string, Option<Error>))
    ensures res.parseIP(mt.host).None? ==> r == (mt.host, None)
    ensures res.parseIP(mt.host).Some? && (res.lookupAddr(mt.host).LookupError? || res.lookupAddr(mt.host).results == []) ==>
              r == ("", Some(ResolveAddrFailed(mt.host, Cause(res.lookupAddr(mt.host)))))
    ensures res.parseIP(mt.host).Some? && res.lookupAddr(mt.host).Found? && res.lookupAddr(mt.host).results != [] ==>
              var first := res.lookupAddr(mt.host).results[0];
              && r.1 == None
              && (first != [] && first[|first| - 1] == '.' ==> r.0 + "." == first)
              && (first == [] || first[|first| - 1] != '.' ==> r.0 == first)
  {
    if res.parseIP(mt.host).None? then (mt.host, None)
    else
      var names := res.lookupAddr(mt.host);
      if names.LookupError? || |names.results| == 0 then
        ("", Some(ResolveAddrFailed(mt.host, Cause(names))))
      else
        (StripTrailingDot(names.results[0]), None)
  }
}
