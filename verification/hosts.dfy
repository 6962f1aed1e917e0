/** Host descriptors: parsing of `[ssh://][user@]host[:port]` connection
    strings (supfile.go `NewHost`), the override from the SSH client
    configuration, the `Host` accessors, and the conversion of a network's
    declared host strings into descriptors (`Network.UnmarshalYAML`).

    The current OS user, the SSH-config table, the path normalisation applied
    to identity files and the bracketed (IPv6) form of `net.SplitHostPort`
    are collaborators outside this code; they are passed in as a `Resolver`. */
module Hosts {
  import opened Wrappers
  import opened Text

  /** How to connect to a host. Fields left empty by the parser stay "". */
  datatype Host = Host(
    address: string,
    port: string,
    user: string,
    identityFile: string,
    knownAs: string,  // first alias of the matching SSH-config entry
    bastion: string   // ProxyJump host of the matching SSH-config entry
  )

  /** One entry of the SSH client configuration, keyed by host alias. */
  datatype SshConfigEntry = SshConfigEntry(
    aliases: seq<string>,
    hostName: string,
    user: string,
    port: int,
    identityFile: string,
    proxyJump: string
  )

  type SshConfig = map<string, SshConfigEntry>

  /** Every entry names at least one alias (the parser takes the first). */
  predicate ValidSshConfig(conf: SshConfig) {
    forall a :: a in conf ==> |conf[a].aliases| > 0
  }

  datatype HostPort = HostPort(host: string, port: string)

  /** `net.AddrError`: what is wrong and the offending address. */
  datatype AddrError = AddrError(why: string, addr: string)

  const MissingPort := "missing port in address"
  const TooManyColons := "too many colons in address"
  const UnexpectedOpenBracket := "unexpected '[' in address"
  const UnexpectedCloseBracket := "unexpected ']' in address"

  /** Collaborators consulted while parsing a host string. */
  datatype Resolver = Resolver(
    currentUser: Result<string, string>,  // user.Current(): user name or failure
    sshConfig: SshConfig,
    resolvePath: string -> string,        // ResolvePath on identity files
    bracketedSplit: string -> Result<HostPort, AddrError>  // SplitHostPort on "[...]..."
  )

  datatype HostError =
    | UserLookupFailed(reason: string)
    | UnexpectedSlash
    | BadAddress(err: AddrError)

  const SshScheme := "ssh://"
  const DefaultPort := "22"

  predicate Bracketed(s: string) {
    |s| > 0 && s[0] == '['
  }

  /** `net.SplitHostPort`. The port follows the last colon; an unbracketed
      host may contain no colon and the address no bracket at all. */
  function SplitHostPort(s: string, bracketed: string -> Result<HostPort, AddrError>): (r: Result<HostPort, AddrError>)
    ensures ':' !in s ==> r == Err(AddrError(MissingPort, s))
    ensures r.Ok? && !Bracketed(s) ==>
      && r.value.host + ":" + r.value.port == s
      && ':' !in r.value.host && ':' !in r.value.port
      && '[' !in s && ']' !in s
  {
    match LastIndexOf(s, ':')
    case None => Err(AddrError(MissingPort, s))
    case Some(i) =>
      if s[0] == '[' then bracketed(s)
      else if ':' in s[..i] then Err(AddrError(TooManyColons, s))
      else if '[' in s then Err(AddrError(UnexpectedOpenBracket, s))
      else if ']' in s then Err(AddrError(UnexpectedCloseBracket, s))
      else
        assert s == s[..i] + ":" + s[i + 1..];
        Ok(HostPort(s[..i], s[i + 1..]))
  }

  /** Text that can stand on either side of the colon of an unbracketed
      "host:port". */
  predicate PlainHostPart(s: string) {
    ':' !in s && '[' !in s && ']' !in s
  }

  /** Joining a colon-free, bracket-free host and port with ":" and splitting
      again gives them back. */
  lemma SplitHostPortJoin(host: string, port: string, bracketed: string -> Result<HostPort, AddrError>)
    requires PlainHostPart(host) && PlainHostPart(port)
    ensures SplitHostPort(host + ":" + port, bracketed) == Ok(HostPort(host, port))
  {
    var s := host + ":" + port;
    assert s[|host|] == ':';
    var i := LastIndexOf(s, ':').value;
    assert s[|host| + 1..] == port;
    assert s[..|host|] == host;
    assert '[' !in s by {
      assert forall k :: 0 <= k < |s| ==> s[k] in host || s[k] == ':' || s[k] in port;
    }
    assert ']' !in s by {
      assert forall k :: 0 <= k < |s| ==> s[k] in host || s[k] == ':' || s[k] in port;
    }
  }

  /** The host string with one leading "ssh://" removed; the prefix is only
      removed when something follows it. */
  function StripScheme(s: string): (r: string)
    ensures r == s || (SshScheme + r == s && r != "")
    ensures HasPrefix(s, SshScheme) && |s| > |SshScheme| ==> SshScheme + r == s
  {
    if |s| > 6 && s[..6] == SshScheme then
      assert s == s[..6] + s[6..];
      s[6..]
    else s
  }

  /** Splits at the last "@": the text before it names the user, the text
      after it is `host[:port]`. Without "@" there is no user. */
  function SplitUser(s: string): (r: (string, string))
    ensures '@' !in r.1
    ensures '@' in s ==> r.0 + "@" + r.1 == s
    ensures '@' !in s ==> r == ("", s)
  {
    match LastIndexOf(s, '@')
    case None => ("", s)
    case Some(at) =>
      assert s == s[..at] + "@" + s[at + 1..];
      (s[..at], s[at + 1..])
  }

  /** The first half of `NewHost`, applied to the string after the scheme
      has been stripped: everything up to the SSH-config lookup. The user
      lookup happens before the slash check, so it fails first. */
  function ParseUserHost(s: string, env: Resolver): (r: Result<Host, HostError>)
    ensures var (user, rest) := SplitUser(s);
      && (r.Err? && r.error.UserLookupFailed? <==> user == "" && env.currentUser.Err?)
      && (r.Err? && r.error.UserLookupFailed? ==> r.error.reason == env.currentUser.error)
      && (r == Err(UnexpectedSlash) <==> !(user == "" && env.currentUser.Err?) && '/' in rest)
      && (r.Err? && r.error.BadAddress? <==>
            && !(user == "" && env.currentUser.Err?) && '/' !in rest && ':' in rest
            && SplitHostPort(rest, env.bracketedSplit).Err?)
      && (r.Err? && r.error.BadAddress? ==> SplitHostPort(rest, env.bracketedSplit) == Err(r.error.err))
      && (r.Ok? ==> r.value.user == (if user == "" then env.currentUser.value else user))
      && (r.Ok? && ':' !in rest ==> r.value.address == rest && r.value.port == DefaultPort)
      && (r.Ok? && ':' in rest ==>
            SplitHostPort(rest, env.bracketedSplit) == Ok(HostPort(r.value.address, r.value.port)))
      && (r.Ok? && ':' in rest && !Bracketed(rest) ==>
            && r.value.address + ":" + r.value.port == rest
            && ':' !in r.value.address && ':' !in r.value.port)
      && (r.Ok? ==> r.value.identityFile == "" && r.value.knownAs == "" && r.value.bastion == "")
  {
    var (user, rest) := SplitUser(s);
    if user == "" && env.currentUser.Err? then
      Err(UserLookupFailed(env.currentUser.error))
    else
      var user := if user == "" then env.currentUser.value else user;
      if '/' in rest then
        Err(UnexpectedSlash)
      else if ':' !in rest then
        Ok(Host(rest, DefaultPort, user, "", "", ""))
      else
        match SplitHostPort(rest, env.bracketedSplit)
        case Err(e) => Err(BadAddress(e))
        case Ok(hp) => Ok(Host(hp.host, hp.port, user, "", "", ""))
  }

  /** A second colon outside brackets is too many, as `net.SplitHostPort`
      reports it. */
  lemma ExtraColonSplit(bracketed: string -> Result<HostPort, AddrError>)
    ensures SplitHostPort("a:b:c", bracketed) == Err(AddrError(TooManyColons, "a:b:c"))
  {
    var s := "a:b:c";
    LastIndexOfAt(s, ':', 3);
    assert s[..3][1] == ':';
  }

  /** With an explicit user, an address that `net.SplitHostPort` refuses
      fails the host with that very error. */
  lemma ParseUserHostBadAddress(user: string, rest: string, env: Resolver)
    requires user != "" && '@' !in rest && '/' !in rest && ':' in rest
    requires SplitHostPort(rest, env.bracketedSplit).Err?
    ensures ParseUserHost(user + "@" + rest, env) == Err(BadAddress(SplitHostPort(rest, env.bracketedSplit).error))
  {
    SplitUserAtLast(user, rest);
  }

  /** So a host string with a second colon is an address error. */
  lemma ExtraColonIsBadAddress(env: Resolver)
    ensures ParseUserHost("u@a:b:c", env) == Err(BadAddress(AddrError(TooManyColons, "a:b:c")))
  {
    var rest := "a:b:c";
    assert "u@a:b:c" == "u" + "@" + rest;
    assert rest[1] == ':';
    ExtraColonSplit(env.bracketedSplit);
    ParseUserHostBadAddress("u", rest, env);
  }

  /** The second half of `NewHost`: a host whose address is an alias in the
      SSH configuration takes user, address, port, identity file, display
      name and bastion from that entry; any other host is left as parsed. */
  function ApplySshConfig(h: Host, env: Resolver): (r: Host)
    requires ValidSshConfig(env.sshConfig)
    ensures h.address !in env.sshConfig ==> r == h
    ensures h.address in env.sshConfig ==>
      var e := env.sshConfig[h.address];
      && r.user == e.user
      && r.address == e.hostName
      && r.port == FormatInt(e.port)
      && r.identityFile == env.resolvePath(e.identityFile)
      && r.knownAs == e.aliases[0]
      && r.bastion == e.proxyJump
  {
    if h.address in env.sshConfig then
      var e := env.sshConfig[h.address];
      Host(e.hostName, FormatInt(e.port), e.user, env.resolvePath(e.identityFile), e.aliases[0], e.proxyJump)
    else
      h
  }

  /** `NewHost`: parse a connection string and apply the SSH configuration. */
  function NewHost(hostStr: string, env: Resolver): (r: Result<Host, HostError>)
    requires ValidSshConfig(env.sshConfig)
    ensures r.Err? <==> ParseUserHost(StripScheme(hostStr), env).Err?
    ensures r.Err? ==> r == ParseUserHost(StripScheme(hostStr), env)
    ensures r.Ok? ==> r.value == ApplySshConfig(ParseUserHost(StripScheme(hostStr), env).value, env)
  {
    match ParseUserHost(StripScheme(hostStr), env)
    case Err(e) => Err(e)
    case Ok(h) => Ok(ApplySshConfig(h, env))
  }

  /** `Host.GetHost`: the dial address "address:port", which splits back
      into the address and port when neither holds a colon or a bracket. */
  function GetHost(h: Host): (r: string)
    ensures PlainHostPart(h.address) && PlainHostPart(h.port) ==>
      forall b :: SplitHostPort(r, b) == Ok(HostPort(h.address, h.port))
  {
    var r := h.address + ":" + h.port;
    assert PlainHostPart(h.address) && PlainHostPart(h.port) ==>
      forall b :: SplitHostPort(r, b) == Ok(HostPort(h.address, h.port)) by {
      if PlainHostPart(h.address) && PlainHostPart(h.port) {
        forall b {
          SplitHostPortJoin(h.address, h.port, b);
        }
      }
    }
    r
  }

  /** `Host.GetHostname`: the SSH-config alias when there is one, else the
      address. */
  function GetHostname(h: Host): (r: string)
    ensures h.knownAs != "" ==> r == h.knownAs
    ensures h.knownAs == "" ==> r == h.address
  {
    if h.knownAs != "" then h.knownAs else h.address
  }

  /** `Host.GetPrefixText`: the log prefix for a host's output. It names the
      host by its alias when it has one, and otherwise by "user@" followed by
      its dial address. */
  function GetPrefixText(h: Host): (r: string)
    ensures h.knownAs != "" ==> r == GetHostname(h) + " | "
    ensures h.knownAs == "" ==> r == h.user + "@" + GetHost(h) + " | "
  {
    var prefix := if h.knownAs != "" then h.knownAs else h.user + "@" + h.address + ":" + h.port;
    prefix + " | "
  }

  /** What a parsed host's display name is: the first alias of its SSH-config
      entry when the inline address names one (and the alias is not empty),
      otherwise the address. */
  lemma HostnameOfNewHost(hostStr: string, env: Resolver)
    requires ValidSshConfig(env.sshConfig)
    requires NewHost(hostStr, env).Ok?
    ensures var inline := ParseUserHost(StripScheme(hostStr), env).value;
      var name := GetHostname(NewHost(hostStr, env).value);
      && (inline.address !in env.sshConfig ==> name == inline.address)
      && (inline.address in env.sshConfig ==>
            var e := env.sshConfig[inline.address];
            name == if e.aliases[0] != "" then e.aliases[0] else e.hostName)
  {
  }

  /** A prefix of exactly "ssh://" is not a scheme: nothing follows it, so it
      stays and its slashes make the address malformed. */
  lemma BareSchemeIsMalformed(env: Resolver)
    requires ValidSshConfig(env.sshConfig)
    requires env.currentUser.Ok?
    ensures NewHost("ssh://", env) == Err(UnexpectedSlash)
  {
    assert StripScheme("ssh://") == "ssh://";
    assert SplitUser("ssh://") == ("", "ssh://");
    assert "ssh://"[4] == '/';
  }

  /** For a string free of slashes, the "ssh://" prefix changes nothing. */
  lemma SchemeIsOptional(s: string, env: Resolver)
    requires ValidSshConfig(env.sshConfig)
    requires |s| > 0 && '/' !in s
    ensures NewHost(SshScheme + s, env) == NewHost(s, env)
  {
    StripSchemePrefix(s);
    assert StripScheme(s) == s by {
      if |s| > 6 {
        assert s[..6][4] == s[4];
      }
    }
  }

  /** A scheme prefix followed by anything is removed. */
  lemma StripSchemePrefix(t: string)
    requires |t| > 0
    ensures StripScheme(SshScheme + t) == t
  {
    assert (SshScheme + t)[..6] == SshScheme;
    assert (SshScheme + t)[6..] == t;
  }

  /** The user part ends at the last "@". */
  lemma SplitUserAtLast(user: string, rest: string)
    requires '@' !in rest
    ensures SplitUser(user + "@" + rest) == (user, rest)
  {
    var t := user + "@" + rest;
    assert t[|user| + 1..] == rest;
    LastIndexOfAt(t, '@', |user|);
    assert t[..|user|] == user;
  }

  /** "user@host:port" with an explicit user splits at the "@" before the
      host, however many "@" or "/" the user holds. */
  lemma ParseUserHostExplicit(user: string, host: string, port: string, env: Resolver)
    requires user != ""
    requires '@' !in host && '/' !in host && PlainHostPart(host)
    requires '@' !in port && '/' !in port && PlainHostPart(port)
    ensures ParseUserHost(user + "@" + (host + ":" + port), env) == Ok(Host(host, port, user, "", "", ""))
  {
    var rest := host + ":" + port;
    SplitUserAtLast(user, rest);
    SplitHostPortJoin(host, port, env.bracketedSplit);
    assert '/' !in rest && ':' in rest;
  }

  /** A full connection string "ssh://user@host:port" parses back into its
      user, host and port. The user is everything before the last "@", so it
      may itself hold "@" or "/" (the slash check only sees what follows). */
  lemma NewHostFullString(user: string, host: string, port: string, env: Resolver)
    requires ValidSshConfig(env.sshConfig)
    requires user != ""
    requires '@' !in host && '/' !in host && PlainHostPart(host)
    requires '@' !in port && '/' !in port && PlainHostPart(port)
    requires host !in env.sshConfig
    ensures NewHost(SshScheme + user + "@" + host + ":" + port, env) == Ok(Host(host, port, user, "", "", ""))
  {
    var t := user + "@" + (host + ":" + port);
    assert SshScheme + user + "@" + host + ":" + port == SshScheme + t;
    StripSchemePrefix(t);
    ParseUserHostExplicit(user, host, port, env);
  }

  /** A bare address takes the current OS user and the default port. */
  lemma NewHostBareAddress(host: string, env: Resolver)
    requires ValidSshConfig(env.sshConfig)
    requires env.currentUser.Ok?
    requires '@' !in host && '/' !in host && ':' !in host
    requires host !in env.sshConfig
    ensures NewHost(host, env) == Ok(Host(host, DefaultPort, env.currentUser.value, "", "", ""))
  {
    assert StripScheme(host) == host by {
      if |host| > 6 {
        assert host[..6][4] == host[4];
      }
    }
  }

  /** `Network.UnmarshalYAML`: every declared host string becomes a host
      descriptor, in order; the first string that does not parse aborts with
      its error. */
  function ParseHosts(items: seq<string>, env: Resolver): (r: Result<seq<Host>, HostError>)
    requires ValidSshConfig(env.sshConfig)
    ensures r.Ok? <==> forall i :: 0 <= i < |items| ==> NewHost(items[i], env).Ok?
    ensures r.Ok? ==>
      && |r.value| == |items|
      && (forall i :: 0 <= i < |items| ==> NewHost(items[i], env) == Ok(r.value[i]))
    ensures r.Err? ==>
      exists i :: && 0 <= i < |items|
                  && NewHost(items[i], env) == Err(r.error)
                  && (forall j :: 0 <= j < i ==> NewHost(items[j], env).Ok?)
  {
    MapAll(items, (s: string) requires ValidSshConfig(env.sshConfig) => NewHost(s, env))
  }
}
