/**
 * `dnsReadConfig` of dnsconfig.go: the resolv.conf reader that collects the
 * name servers handed to the DHCP server.  The file arrives as the lines its
 * scanner yields; whether a string is an IP address (`net.ParseIP`) is a
 * parameter.
 */
module DnsConfig {
  import opened Options

  /** `dnsConfig`: the servers to use, the open error, and whether anything unknown was seen. */
  datatype Config = Config(servers: seq<string>, err: Option<string>, unknownOpt: bool)

  /** The servers used when the file names none. */
  const DefaultNS: seq<string> := ["127.0.0.1", "[::1]"]

  /** At most this many name servers are kept, the limit resolv.conf(5) sets. */
  const MaxNameservers: nat := 3

  /** The outcome of opening the file: its lines, or the open error. */
  datatype Opened = Opened(lines: seq<string>) | OpenFailed(err: string)

  /**
   * White space as Unicode defines it, which is where `strings.Fields`
   * splits: tab, line feed, vertical tab, form feed, carriage return, space,
   * U+0085, U+00A0, U+1680, U+2000 to U+200A, U+2028, U+2029, U+202F,
   * U+205F and U+3000.
   */
  predicate IsSpace(c: char)
  {
    if c <= '\U{00FF}' then
      ('\t' <= c <= '\r') || c == ' ' || c == '\U{0085}' || c == '\U{00A0}'
    else
      c == '\U{1680}' || ('\U{2000}' <= c <= '\U{200A}') || c == '\U{2028}' || c == '\U{2029}'
      || c == '\U{202F}' || c == '\U{205F}' || c == '\U{3000}'
  }

  /** `s` holds no white space. */
  predicate NoSpace(s: string)
  {
    forall i :: 0 <= i < |s| ==> !IsSpace(s[i])
  }

  /**
   * `strings.Fields`: the maximal runs of non-space characters, in order.
   * `FieldsFrom(s, cur)` splits `s` when the run `cur` is already under way.
   */
  function FieldsFrom(s: string, cur: string): seq<string>
  {
    if s == [] then (if cur == [] then [] else [cur])
    else if IsSpace(s[0]) then (if cur == [] then [] else [cur]) + FieldsFrom(s[1..], [])
    else FieldsFrom(s[1..], cur + [s[0]])
  }

  function Fields(s: string): seq<string>
  {
    FieldsFrom(s, [])
  }

  lemma {:induction false} FieldsFromAreWords(s: string, cur: string)
    requires NoSpace(cur)
    ensures forall i :: 0 <= i < |FieldsFrom(s, cur)| ==> FieldsFrom(s, cur)[i] != [] && NoSpace(FieldsFrom(s, cur)[i])
    decreases |s|
  {
    if s != [] {
      if IsSpace(s[0]) {
        FieldsFromAreWords(s[1..], []);
        var head := if cur == [] then [] else [cur];
        var rest := FieldsFrom(s[1..], []);
        assert FieldsFrom(s, cur) == head + rest;
        forall i | |head| <= i < |head + rest|
          ensures (head + rest)[i] != [] && NoSpace((head + rest)[i])
        {
          assert (head + rest)[i] == rest[i - |head|];
        }
      } else {
        var next := cur + [s[0]];
        assert forall i :: 0 <= i < |cur| ==> next[i] == cur[i];
        FieldsFromAreWords(s[1..], next);
      }
    }
  }

  /** Every field is a non-empty run of non-space characters. */
  lemma FieldsAreWords(s: string)
    ensures forall i :: 0 <= i < |Fields(s)| ==> Fields(s)[i] != [] && NoSpace(Fields(s)[i])
  {
    FieldsFromAreWords(s, []);
  }

  /** The characters of `s` that are not white space, in order. */
  function NonSpace(s: string): string
  {
    if s == [] then [] else (if IsSpace(s[0]) then [] else [s[0]]) + NonSpace(s[1..])
  }

  /** All fields of a list, run together. */
  function Concat(fs: seq<string>): string
  {
    if fs == [] then [] else fs[0] + Concat(fs[1..])
  }

  lemma {:induction false} FieldsFromKeepOtherCharacters(s: string, cur: string)
    ensures Concat(FieldsFrom(s, cur)) == cur + NonSpace(s)
    decreases |s|
  {
    if s == [] {
      if cur != [] {
        assert Concat([cur]) == cur + Concat([]);
      }
    } else if IsSpace(s[0]) {
      FieldsFromKeepOtherCharacters(s[1..], []);
      var rest := FieldsFrom(s[1..], []);
      assert NonSpace(s) == NonSpace(s[1..]);
      if cur == [] {
        assert FieldsFrom(s, cur) == rest;
      } else {
        assert FieldsFrom(s, cur) == [cur] + rest;
        assert ([cur] + rest)[1..] == rest;
      }
    } else {
      FieldsFromKeepOtherCharacters(s[1..], cur + [s[0]]);
      assert NonSpace(s) == [s[0]] + NonSpace(s[1..]);
      assert cur + [s[0]] + NonSpace(s[1..]) == cur + ([s[0]] + NonSpace(s[1..]));
    }
  }

  /** Splitting loses only the white space: the fields run together are the line's other characters. */
  lemma FieldsKeepEveryOtherCharacter(s: string)
    ensures Concat(Fields(s)) == NonSpace(s)
  {
    FieldsFromKeepOtherCharacters(s, []);
    assert [] + NonSpace(s) == NonSpace(s);
  }

  lemma {:induction false} FieldsFromOfWord(w: string, cur: string)
    requires NoSpace(w) && cur + w != []
    ensures FieldsFrom(w, cur) == [cur + w]
    decreases |w|
  {
    if w == [] {
      assert cur + w == cur;
    } else {
      FieldsFromOfWord(w[1..], cur + [w[0]]);
      assert cur + [w[0]] + w[1..] == cur + w;
    }
  }

  /** A run of non-space characters is one field: a word is never cut. */
  lemma FieldsOfWord(w: string)
    requires w != [] && NoSpace(w)
    ensures Fields(w) == [w]
  {
    FieldsFromOfWord(w, []);
    assert [] + w == w;
  }

  lemma {:induction false} FieldsFromSplitAtSpace(s: string, c: char, t: string, cur: string)
    requires IsSpace(c)
    ensures FieldsFrom(s + [c] + t, cur) == FieldsFrom(s, cur) + FieldsFrom(t, [])
    decreases |s|
  {
    var head: seq<string> := if cur == [] then [] else [cur];
    if s == [] {
      assert s + [c] + t == [c] + t;
      assert ([c] + t)[1..] == t;
      assert FieldsFrom(s, cur) == head;
    } else {
      assert (s + [c] + t)[0] == s[0];
      assert (s + [c] + t)[1..] == s[1..] + [c] + t;
      if IsSpace(s[0]) {
        FieldsFromSplitAtSpace(s[1..], c, t, []);
        assert head + (FieldsFrom(s[1..], []) + FieldsFrom(t, [])) == (head + FieldsFrom(s[1..], [])) + FieldsFrom(t, []);
      } else {
        FieldsFromSplitAtSpace(s[1..], c, t, cur + [s[0]]);
      }
    }
  }

  /** White space always separates fields: the fields around a space are split there. */
  lemma FieldsSplitAtSpace(s: string, c: char, t: string)
    requires IsSpace(c)
    ensures Fields(s + [c] + t) == Fields(s) + Fields(t)
  {
    FieldsFromSplitAtSpace(s, c, t, []);
  }

  lemma {:induction false} NoFieldsFromIffBlank(s: string, cur: string)
    ensures FieldsFrom(s, cur) == [] <==> cur == [] && forall i :: 0 <= i < |s| ==> IsSpace(s[i])
    decreases |s|
  {
    if s != [] {
      if IsSpace(s[0]) {
        NoFieldsFromIffBlank(s[1..], []);
        assert (forall i :: 0 <= i < |s| ==> IsSpace(s[i])) <==> (forall i :: 0 <= i < |s| - 1 ==> IsSpace(s[1..][i]));
      } else {
        NoFieldsFromIffBlank(s[1..], cur + [s[0]]);
      }
    }
  }

  /** A line has no fields exactly when it is all white space. */
  lemma NoFieldsIffBlank(s: string)
    ensures Fields(s) == [] <==> forall i :: 0 <= i < |s| ==> IsSpace(s[i])
  {
    NoFieldsFromIffBlank(s, []);
  }

  /** A run under way is where the first field starts. */
  lemma {:induction false} FirstFieldStartsWithRun(s: string, cur: string)
    requires cur != []
    ensures FieldsFrom(s, cur) != [] && FieldsFrom(s, cur)[0] != [] && FieldsFrom(s, cur)[0][0] == cur[0]
    decreases |s|
  {
    if s != [] && !IsSpace(s[0]) {
      FirstFieldStartsWithRun(s[1..], cur + [s[0]]);
    }
  }

  /** Leading white space contributes nothing. */
  lemma {:induction false} LeadingSpaceSkipped(s: string, k: nat)
    requires k <= |s|
    requires forall i :: 0 <= i < k ==> IsSpace(s[i])
    ensures Fields(s) == Fields(s[k..])
  {
    if k > 0 {
      assert forall i :: 0 <= i < k - 1 ==> s[1..][i] == s[i + 1];
      LeadingSpaceSkipped(s[1..], k - 1);
      assert s[1..][k - 1..] == s[k..];
    }
  }

  /** A comment line: its very first character is ';' or '#'. */
  predicate IsComment(line: string)
  {
    |line| > 0 && (line[0] == ';' || line[0] == '#')
  }

  /** A line that sets `unknownOpt`: not a comment, and a first field other than "nameserver". */
  predicate IsUnknown(line: string)
  {
    !IsComment(line) && Fields(line) != [] && Fields(line)[0] != "nameserver"
  }

  /** Some line of `lines` satisfies `p`. */
  predicate AnyLine(lines: seq<string>, p: string -> bool)
  {
    lines != [] && (AnyLine(lines[..|lines| - 1], p) || p(lines[|lines| - 1]))
  }

  lemma {:induction false} AnyLineIffSomeLine(lines: seq<string>, p: string -> bool)
    ensures AnyLine(lines, p) <==> exists j :: 0 <= j < |lines| && p(lines[j])
  {
    if lines != [] {
      var last := |lines| - 1;
      AnyLineIffSomeLine(lines[..last], p);
      if AnyLine(lines[..last], p) {
        var j :| 0 <= j < last && p(lines[..last][j]);
        assert p(lines[j]);
      }
      if exists j :: 0 <= j < |lines| && p(lines[j]) {
        var j :| 0 <= j < |lines| && p(lines[j]);
        if j < last {
          assert p(lines[..last][j]);
        }
      }
    }
  }

  /** The server a line offers: the argument of a "nameserver" line, when it is an IP address. */
  function Offered(line: string, isIP: string -> bool): (r: seq<string>)
    ensures |r| <= 1
    ensures r != [] ==> isIP(r[0]) && !IsComment(line) && !IsUnknown(line)
    ensures r != [] ==> |Fields(line)| > 1 && Fields(line)[0] == "nameserver" && r[0] == Fields(line)[1]
  {
    if IsComment(line) then []
    else
      var f := Fields(line);
      if |f| > 1 && f[0] == "nameserver" && isIP(f[1]) then [f[1]] else []
  }

  /** Every server the lines offer, in file order, before the limit applies. */
  function Offers(lines: seq<string>, isIP: string -> bool): (r: seq<string>)
    ensures forall s :: s in r ==> isIP(s)
  {
    if lines == [] then [] else Offers(lines[..|lines| - 1], isIP) + Offered(lines[|lines| - 1], isIP)
  }

  /** The first `n` elements of `s`, or all of it when it is shorter. */
  function FirstAtMost<T>(s: seq<T>, n: nat): (r: seq<T>)
    ensures |r| <= n && r <= s
    ensures |s| <= n ==> r == s
  {
    if |s| <= n then s else s[..n]
  }

  lemma FirstAtMostExtend<T>(s: seq<T>, x: seq<T>, n: nat)
    requires |x| <= 1
    ensures FirstAtMost(s + x, n) == if |FirstAtMost(s, n)| < n then FirstAtMost(s, n) + x else FirstAtMost(s, n)
  {
    if |s| < n {
      assert FirstAtMost(s + x, n) == s + x;
    } else {
      assert (s + x)[..n] == s[..n];
    }
  }

  /** A comment line, however it continues, offers nothing and flags nothing. */
  lemma CommentLineIgnored(line: string, isIP: string -> bool)
    requires IsComment(line)
    ensures Offered(line, isIP) == [] && !IsUnknown(line)
  {
  }

  /** A line of white space only offers nothing and flags nothing. */
  lemma BlankLineIgnored(line: string, isIP: string -> bool)
    requires forall i :: 0 <= i < |line| ==> IsSpace(line[i])
    ensures Offered(line, isIP) == [] && !IsUnknown(line)
  {
    NoFieldsIffBlank(line);
  }

  /** White space before the '#' makes a line an unknown option rather than a comment. */
  lemma IndentedHashIsUnknown(line: string, k: nat)
    requires 0 < k < |line| && line[k] == '#'
    requires forall i :: 0 <= i < k ==> IsSpace(line[i])
    ensures IsUnknown(line)
  {
    LeadingSpaceSkipped(line, k);
    var t := line[k..];
    assert t[0] == '#' && !IsSpace(t[0]);
    assert [] + [t[0]] == ['#'];
    assert Fields(t) == FieldsFrom(t[1..], ['#']);
    FirstFieldStartsWithRun(t[1..], ['#']);
    assert IsSpace(line[0]);
  }

  /** A "nameserver" line never flags anything, whatever follows the keyword. */
  lemma NameserverLineNeverUnknown(line: string)
    requires Fields(line) != [] && Fields(line)[0] == "nameserver"
    ensures !IsUnknown(line)
  {
  }

  /**
   * `dnsReadConfig`: a file that cannot be opened gives the default servers
   * and its error; otherwise the servers are the first three IP arguments of
   * "nameserver" lines in file order, or the defaults when there is none,
   * and `unknownOpt` says whether some line carried another keyword.
   */
  method ReadConfig(file: Opened, isIP: string -> bool) returns (conf: Config)
    ensures file.OpenFailed? ==> conf == Config(DefaultNS, Some(file.err), false)
    ensures file.Opened? ==>
              && conf.err == None
              && (conf.unknownOpt <==> exists j :: 0 <= j < |file.lines| && IsUnknown(file.lines[j]))
              && conf.servers == (if Offers(file.lines, isIP) == [] then DefaultNS
                                  else FirstAtMost(Offers(file.lines, isIP), MaxNameservers))
    ensures 1 <= |conf.servers| <= MaxNameservers
    ensures conf.servers == DefaultNS || forall s :: s in conf.servers ==> isIP(s)
  {
    conf := Config([], None, false);
    if file.OpenFailed? {
      conf := conf.(servers := DefaultNS, err := Some(file.err));
      return;
    }
    var lines := file.lines;
    var i := 0;
    while i < |lines|
      invariant 0 <= i <= |lines|
      invariant conf.err == None
      invariant conf.servers == FirstAtMost(Offers(lines[..i], isIP), MaxNameservers)
      invariant conf.unknownOpt == AnyLine(lines[..i], IsUnknown)
    {
      var line := lines[i];
      assert lines[..i + 1][..i] == lines[..i];
      FirstAtMostExtend(Offers(lines[..i], isIP), Offered(line, isIP), MaxNameservers);
      i := i + 1;
      if IsComment(line) {
        continue;
      }
      var f := Fields(line);
      if |f| < 1 {
        continue;
      }
      if f[0] == "nameserver" {
        if |f| > 1 && |conf.servers| < MaxNameservers {
          if isIP(f[1]) {
            conf := conf.(servers := conf.servers + [f[1]]);
          }
        }
      } else {
        conf := conf.(unknownOpt := true);
      }
    }
    assert lines[..i] == lines;
    AnyLineIffSomeLine(lines, IsUnknown);
    if |conf.servers| == 0 {
      conf := conf.(servers := DefaultNS);
    }
  }
}
