/** `Network.ParseInventory` (supfile.go): the inventory command's standard
    output, read line by line, becomes the network's extra hosts. Running
    the command is an injected function; the model covers what is done with
    its output. */
module Inventory {
  import opened Wrappers
  import Text
  import Env
  import Hosts
  import Supfile

  /** Concatenation of a sequence of strings. */
  function Concat(lines: seq<string>): string {
    if |lines| == 0 then "" else lines[0] + Concat(lines[1..])
  }

  /** A line as `ReadString('\n')` returns it: text followed by one newline. */
  predicate IsLine(l: string) {
    |l| > 0 && l[|l| - 1] == '\n' && '\n' !in l[..|l| - 1]
  }

  /** One call of `buf.ReadString('\n')` that finds a newline: the text up
      to and including the first newline, and what remains to be read. No
      newline means the call ends in `io.EOF`. */
  function NextLine(s: string): (r: Option<(string, string)>)
    ensures r.None? <==> '\n' !in s
    ensures r.Some? ==> IsLine(r.value.0) && r.value.0 + r.value.1 == s
  {
    match Text.IndexOf(s, '\n')
    case None => None
    case Some(i) =>
      FirstIsLine(s, i);
      assert s == s[..i + 1] + s[i + 1..];
      Some((s[..i + 1], s[i + 1..]))
  }

  lemma FirstIsLine(s: string, i: nat)
    requires i < |s| && s[i] == '\n' && '\n' !in s[..i]
    ensures IsLine(s[..i + 1])
  {
    assert s[..i + 1][..i] == s[..i];
  }

  /** A line followed by more text is what the next read returns. */
  lemma NextLineOf(line: string, rest: string)
    requires IsLine(line)
    ensures NextLine(line + rest) == Some((line, rest))
  {
    var s, i := line + rest, |line| - 1;
    assert s[..i] == line[..i];
    Text.IndexOfAt(s, '\n', i);
    assert s[..i + 1] == line;
    assert s[i + 1..] == rest;
  }

  /** The successive results of `buf.ReadString('\n')` up to `io.EOF`: every
      newline-terminated line, each keeping its newline. The text after the
      last newline comes back together with `io.EOF`, so the loop drops it. */
  function ReadLines(s: string): (r: seq<string>)
    decreases |s|
  {
    match NextLine(s)
    case None => []
    case Some((line, rest)) =>
      assert |s| == |line| + |rest|;
      [line] + ReadLines(rest)
  }

  /** Every piece read is one newline-terminated line. */
  lemma {:induction false} ReadLinesAreLines(s: string)
    ensures forall j :: 0 <= j < |ReadLines(s)| ==> IsLine(ReadLines(s)[j])
    decreases |s|
  {
    match NextLine(s)
    case None =>
    case Some((line, rest)) =>
      assert |s| == |line| + |rest|;
      ReadLinesAreLines(rest);
      ReadLinesStep(s, line, rest);
      var r, tail := ReadLines(s), ReadLines(rest);
      forall j | 0 <= j < |r| ensures IsLine(r[j]) {
        if j > 0 {
          assert r[j] == tail[j - 1];
        }
      }
  }

  /** The lines read make up the output up to its last newline: they are a
      prefix of it and no newline follows them. */
  lemma {:induction false} ReadLinesCoverOutput(s: string)
    ensures Text.HasPrefix(s, Concat(ReadLines(s)))
    ensures '\n' !in s[|Concat(ReadLines(s))|..]
    decreases |s|
  {
    match NextLine(s)
    case None =>
    case Some((line, rest)) =>
      assert |s| == |line| + |rest|;
      ReadLinesCoverOutput(rest);
      var tail := ReadLines(rest);
      assert ReadLines(s) == [line] + tail;
      assert ([line] + tail)[1..] == tail;
      assert s[..|line|] == line && s[|line|..] == rest;
      PrefixCons(s, |line|, Concat(tail));
  }

  /** A prefix of what follows the first `n` characters, extended by them. */
  lemma PrefixCons(s: string, n: nat, p: string)
    requires n <= |s| && Text.HasPrefix(s[n..], p)
    ensures Text.HasPrefix(s, s[..n] + p)
    ensures s[|s[..n] + p|..] == s[n..][|p|..]
  {
    assert s[..n + |p|] == s[..n] + s[n..][..|p|];
  }

  /** Whether a line names a host: blank lines and `#` comments do not. */
  predicate KeepLine(l: string) {
    var t := Text.TrimSpace(l);
    t != "" && t[0] != '#'
  }

  /** The host an inventory line stands for: only its address is set. */
  function LineHost(l: string): (h: Hosts.Host)
    ensures h.address == Text.TrimSpace(l)
    ensures h.port == "" && h.user == "" && h.identityFile == "" && h.knownAs == "" && h.bastion == ""
  {
    Hosts.Host(Text.TrimSpace(l), "", "", "", "", "")
  }

  /** What one line contributes: its host, or nothing. */
  function LineHosts(l: string): seq<Hosts.Host> {
    if KeepLine(l) then [LineHost(l)] else []
  }

  /** The body of the read loop over the lines read. */
  function KeepHosts(lines: seq<string>): (r: seq<Hosts.Host>)
    ensures |r| <= |lines|
  {
    if |lines| == 0 then []
    else LineHosts(lines[0]) + KeepHosts(lines[1..])
  }

  /** The loop handles each line on its own: reading more lines appends
      their hosts. */
  lemma {:induction false} KeepHostsAppend(a: seq<string>, b: seq<string>)
    ensures KeepHosts(a + b) == KeepHosts(a) + KeepHosts(b)
    decreases |a|
  {
    if |a| == 0 {
      assert a + b == b;
    } else {
      assert (a + b)[1..] == a[1..] + b;
      KeepHostsAppend(a[1..], b);
    }
  }

  /** A host with only its address set, an address that is not empty and
      does not start a comment. */
  predicate AddressOnly(h: Hosts.Host) {
    && h.address != ""
    && h.address[0] != '#'
    && h == Hosts.Host(h.address, "", "", "", "", "")
  }

  /** What one line contributes is address-only. */
  lemma LineHostsShape(l: string)
    ensures forall j :: 0 <= j < |LineHosts(l)| ==> AddressOnly(LineHosts(l)[j])
  {
  }

  /** Every host kept names a non-empty address that does not start a
      comment, and has no other field set. */
  lemma {:induction false} KeepHostsShape(lines: seq<string>)
    ensures forall j :: 0 <= j < |KeepHosts(lines)| ==> AddressOnly(KeepHosts(lines)[j])
    decreases |lines|
  {
    if |lines| > 0 {
      KeepHostsShape(lines[1..]);
      LineHostsShape(lines[0]);
      var a, b := LineHosts(lines[0]), KeepHosts(lines[1..]);
      var r := KeepHosts(lines);
      assert r == a + b;
      forall j | 0 <= j < |r| ensures AddressOnly(r[j]) {
        if j < |a| {
          assert r[j] == a[j];
        } else {
          assert r[j] == b[j - |a|];
        }
      }
    }
  }

  /** The hosts listed by the inventory command's output: at most one per
      line read, each with only an address, which is neither empty nor a
      comment. */
  function HostsOfOutput(output: string): (r: seq<Hosts.Host>)
    ensures |r| <= |ReadLines(output)|
    ensures forall j :: 0 <= j < |r| ==> AddressOnly(r[j])
  {
    KeepHostsShape(ReadLines(output));
    KeepHosts(ReadLines(output))
  }

  /** `ParseInventory`: no inventory means no hosts and no error; otherwise
      the inventory is run by `/bin/sh -c` with the network's env appended to
      the process environment, a failure is returned as is, and the output's
      lines become hosts. `run` stands for the command execution. */
  function ParseInventory(n: Supfile.Network, run: (string, seq<string>) -> Result<string, string>)
    : (r: Result<seq<Hosts.Host>, string>)
    ensures n.inventory == "" ==> r == Ok([])
    ensures n.inventory != "" && run(n.inventory, Env.Slice(n.env)).Err? ==>
      r == Err(run(n.inventory, Env.Slice(n.env)).error)
    ensures n.inventory != "" && run(n.inventory, Env.Slice(n.env)).Ok? ==>
      r == Ok(HostsOfOutput(run(n.inventory, Env.Slice(n.env)).value))
  {
    if n.inventory == "" then Ok([])
    else
      var output :- run(n.inventory, Env.Slice(n.env));
      Ok(HostsOfOutput(output))
  }

  /** Output made of whole lines splits at any line boundary. */
  lemma {:induction false} ReadLinesAppend(a: string, b: string)
    requires a == "" || a[|a| - 1] == '\n'
    ensures ReadLines(a + b) == ReadLines(a) + ReadLines(b)
    decreases |a|
  {
    if a != "" {
      var (line, tail) := NextLine(a).value;
      var r1, r2 := ReadLines(tail), ReadLines(b);
      assert ReadLines(a + b) == [line] + ReadLines(tail + b) by {
        assert a + b == line + (tail + b);
        NextLineOf(line, tail + b);
        ReadLinesStep(a + b, line, tail + b);
      }
      assert ReadLines(a) == [line] + r1 by {
        ReadLinesStep(a, line, tail);
      }
      assert ReadLines(tail + b) == r1 + r2 by {
        assert tail == "" || tail[|tail| - 1] == '\n' by {
          if tail != "" {
            assert tail[|tail| - 1] == a[|a| - 1];
          }
        }
        ReadLinesAppend(tail, b);
      }
      ConsAssoc(line, r1, r2);
    } else {
      assert a + b == b;
    }
  }

  lemma ConsAssoc<T>(x: T, r1: seq<T>, r2: seq<T>)
    ensures [x] + r1 + r2 == [x] + (r1 + r2)
  {
  }

  /** One step of the read loop. */
  lemma ReadLinesStep(s: string, line: string, rest: string)
    requires NextLine(s) == Some((line, rest))
    ensures ReadLines(s) == [line] + ReadLines(rest)
  {
  }

  /** Text without a newline holds no complete line. */
  lemma NoNewlineNoLines(t: string)
    requires '\n' !in t
    ensures ReadLines(t) == []
  {
  }

  /** One line of text followed by a newline reads as exactly that line. */
  lemma ReadOneLine(l: string)
    requires '\n' !in l
    ensures ReadLines(l + "\n") == [l + "\n"]
  {
    var line := l + "\n";
    assert line[..|l|] == l;
    NextLineOf(line, "");
    assert line + "" == line;
    ReadLinesStep(line, line, "");
    NoNewlineNoLines("");
  }

  /** A last line without a newline yields no host. */
  lemma PartialLastLineIsDropped(s: string, t: string)
    requires s == "" || s[|s| - 1] == '\n'
    requires '\n' !in t
    ensures HostsOfOutput(s + t) == HostsOfOutput(s)
  {
    ReadLinesAppend(s, t);
    NoNewlineNoLines(t);
    assert ReadLines(s) + [] == ReadLines(s);
  }

  /** Appending a line to the output appends its host, unless it is blank or
      a comment. */
  lemma AppendedLineAddsItsHost(s: string, l: string)
    requires s == "" || s[|s| - 1] == '\n'
    requires '\n' !in l
    ensures HostsOfOutput(s + l + "\n") == HostsOfOutput(s) + LineHosts(l + "\n")
  {
    var line := l + "\n";
    assert s + l + "\n" == s + line;
    assert ReadLines(s + line) == ReadLines(s) + [line] by {
      ReadLinesAppend(s, line);
      ReadOneLine(l);
    }
    assert KeepHosts(ReadLines(s) + [line]) == KeepHosts(ReadLines(s)) + KeepHosts([line]) by {
      KeepHostsAppend(ReadLines(s), [line]);
    }
    assert KeepHosts([line]) == LineHosts(line) by {
      assert [line][1..] == [];
    }
  }

  /** The text of a comment line after its "#". */
  predicate CommentText(comment: string) {
    '\n' !in comment && (comment == "" || !Text.IsSpace(comment[|comment| - 1]))
  }

  /** The text of a blank line: white space only. */
  predicate BlankText(blank: string) {
    '\n' !in blank && forall k :: 0 <= k < |blank| ==> Text.IsSpace(blank[k])
  }

  /** A host name as an inventory line may hold it. */
  predicate PlainName(h: string) {
    && h != "" && '\n' !in h && h[0] != '#'
    && !Text.IsSpace(h[0]) && !Text.IsSpace(h[|h| - 1])
  }

  /** A line made of a word between white space: it names the word as a
      host unless the word is empty or a comment. */
  lemma PaddedLine(a: string, w: string, b: string)
    requires forall k :: 0 <= k < |a| ==> Text.IsSpace(a[k])
    requires forall k :: 0 <= k < |b| ==> Text.IsSpace(b[k])
    requires w != [] ==> !Text.IsSpace(w[0]) && !Text.IsSpace(w[|w| - 1])
    ensures KeepLine(a + w + b) <==> w != "" && w[0] != '#'
    ensures LineHost(a + w + b) == Hosts.Host(w, "", "", "", "", "")
  {
    Text.TrimSpaceOf(a, w, b);
  }

  /** A host name on a line of its own is kept as it is. */
  lemma NameLine(h: string)
    requires PlainName(h)
    ensures LineHosts(h + "\n") == [Hosts.Host(h, "", "", "", "", "")]
  {
    PaddedLine("", h, "\n");
    assert "" + h + "\n" == h + "\n";
  }

  /** A host name between blanks is kept, trimmed. */
  lemma IndentedNameLine(h: string)
    requires PlainName(h)
    ensures LineHosts("  " + h + " " + "\n") == [Hosts.Host(h, "", "", "", "", "")]
  {
    PaddedLine("  ", h, " \n");
    assert "  " + h + " \n" == "  " + h + " " + "\n";
  }

  /** A comment line is skipped. */
  lemma CommentLine(comment: string)
    requires CommentText(comment)
    ensures LineHosts("#" + comment + "\n") == []
  {
    PaddedLine("", "#" + comment, "\n");
    assert "" + ("#" + comment) + "\n" == "#" + comment + "\n";
  }

  /** A line of white space is skipped. */
  lemma BlankLine(blank: string)
    requires BlankText(blank)
    ensures LineHosts(blank + "\n") == []
  {
    assert forall k :: 0 <= k < |blank + "\n"| ==> Text.IsSpace((blank + "\n")[k]);
    PaddedLine(blank + "\n", "", "");
    assert blank + "\n" + "" + "" == blank + "\n";
  }

  /** Four lines of output give the hosts of each line, in order. */
  lemma HostsOfFourLines(l1: string, l2: string, l3: string, l4: string,
                         r1: seq<Hosts.Host>, r2: seq<Hosts.Host>, r3: seq<Hosts.Host>, r4: seq<Hosts.Host>)
    requires '\n' !in l1 && '\n' !in l2 && '\n' !in l3 && '\n' !in l4
    requires LineHosts(l1 + "\n") == r1 && LineHosts(l2 + "\n") == r2
    requires LineHosts(l3 + "\n") == r3 && LineHosts(l4 + "\n") == r4
    ensures HostsOfOutput(l1 + "\n" + l2 + "\n" + l3 + "\n" + l4 + "\n") == r1 + r2 + r3 + r4
  {
    var s1 := l1 + "\n";
    var s2 := s1 + l2 + "\n";
    var s3 := s2 + l3 + "\n";
    assert HostsOfOutput(s1) == LineHosts(s1) by {
      AppendedLineAddsItsHost("", l1);
      assert "" + l1 == l1;
    }
    assert s2[|s2| - 1] == '\n' && s3[|s3| - 1] == '\n';
    AppendedLineAddsItsHost(s1, l2);
    AppendedLineAddsItsHost(s2, l3);
    AppendedLineAddsItsHost(s3, l4);
  }

  /** The four lines of the example below, one at a time. */
  lemma ExampleLines(h1: string, comment: string, blank: string, h2: string)
    requires PlainName(h1) && PlainName(h2)
    requires CommentText(comment)
    requires BlankText(blank)
    ensures '\n' !in "#" + comment && '\n' !in "  " + h2 + " "
    ensures LineHosts(h1 + "\n") == [Hosts.Host(h1, "", "", "", "", "")]
    ensures LineHosts("#" + comment + "\n") == []
    ensures LineHosts(blank + "\n") == []
    ensures LineHosts("  " + h2 + " " + "\n") == [Hosts.Host(h2, "", "", "", "", "")]
  {
    assert '\n' !in "#" + comment;
    assert '\n' !in "  " + h2 + " ";
    assert LineHosts(h1 + "\n") == [Hosts.Host(h1, "", "", "", "", "")] by {
      NameLine(h1);
    }
    assert LineHosts("#" + comment + "\n") == [] by {
      CommentLine(comment);
    }
    assert LineHosts(blank + "\n") == [] by {
      BlankLine(blank);
    }
    assert LineHosts("  " + h2 + " " + "\n") == [Hosts.Host(h2, "", "", "", "", "")] by {
      IndentedNameLine(h2);
    }
  }

  /** An inventory listing a host, a comment, a blank line and an indented
      host yields the two hosts, trimmed, in order. */
  lemma InventoryExample(h1: string, comment: string, blank: string, h2: string)
    requires PlainName(h1) && PlainName(h2)
    requires CommentText(comment)
    requires BlankText(blank)
    ensures HostsOfOutput(h1 + "\n" + ("#" + comment) + "\n" + blank + "\n" + ("  " + h2 + " ") + "\n") ==
      [Hosts.Host(h1, "", "", "", "", "")] + [Hosts.Host(h2, "", "", "", "", "")]
  {
    var host1, host2 := Hosts.Host(h1, "", "", "", "", ""), Hosts.Host(h2, "", "", "", "", "");
    var output := h1 + "\n" + ("#" + comment) + "\n" + blank + "\n" + ("  " + h2 + " ") + "\n";
    assert HostsOfOutput(output) == [host1] + [] + [] + [host2] by {
      ExampleLines(h1, comment, blank, h2);
      HostsOfFourLines(h1, "#" + comment, blank, "  " + h2 + " ", [host1], [], [], [host2]);
    }
  }
}
