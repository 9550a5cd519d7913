/** Target expansion: `parse_ports` and `parse_hosts` of the MSSQL health mapper.
    Both walk the tokens of their argument, extend a local list with what each
    token stands for, and finish with `sorted(set(...))`. */
module TargetExpansion {
  import opened Wrappers
  import opened PyText
  import opened Sorting

  // ===========================================================================
  // The shape both parsers share

  /** The union of what each token expands to, or None when some token fails:
      what `for part in ...: xs.extend(...)` leaves in `set(xs)`, where a failing
      token raises. */
  function Expand<T>(parts: seq<string>, expand: string -> Option<set<T>>): Option<set<T>>
    decreases |parts|
  {
    if |parts| == 0 then Some({})
    else
      var init := Expand(parts[..|parts| - 1], expand);
      var last := expand(parts[|parts| - 1]);
      if init.Some? && last.Some? then Some(init.value + last.value) else None
  }

  /** Taking one more token into the expansion. */
  lemma ExpandStep<T>(parts: seq<string>, j: nat, expand: string -> Option<set<T>>)
    requires j < |parts|
    ensures Expand(parts[..j + 1], expand) ==
      var init := Expand(parts[..j], expand);
      var last := expand(parts[j]);
      if init.Some? && last.Some? then Some(init.value + last.value) else None
  {
    assert parts[..j + 1][..j] == parts[..j];
  }

  /** The expansion is defined exactly when every token expands. */
  lemma {:induction false} ExpandDefined<T>(parts: seq<string>, expand: string -> Option<set<T>>)
    ensures Expand(parts, expand).Some? <==> forall i | 0 <= i < |parts| :: expand(parts[i]).Some?
    decreases |parts|
  {
    if |parts| > 0 {
      var init := parts[..|parts| - 1];
      ExpandDefined(init, expand);
      assert forall i | 0 <= i < |init| :: init[i] == parts[i];
    }
  }

  /** An element is in the expansion exactly when some token expands to it. */
  lemma {:induction false} ExpandMembers<T>(parts: seq<string>, expand: string -> Option<set<T>>, x: T)
    requires Expand(parts, expand).Some?
    ensures x in Expand(parts, expand).value <==>
      exists i | 0 <= i < |parts| :: expand(parts[i]).Some? && x in expand(parts[i]).value
    decreases |parts|
  {
    if |parts| > 0 {
      var init := parts[..|parts| - 1];
      ExpandMembers(init, expand, x);
      assert forall i | 0 <= i < |init| :: init[i] == parts[i];
    }
  }

  // ===========================================================================
  // Ports: comma-separated tokens, each `N` or `A-B`

  datatype PortToken = Single(port: nat) | Span(first: nat, last: nat)

  /** `part` is two dash-free texts joined by one dash, which `int()` reads as
      `first` and `last`. */
  ghost predicate SpanText(part: string, first: int, last: int) {
    exists lo, hi | '-' !in lo && '-' !in hi ::
      && part == lo + "-" + hi
      && ParseInt(lo) == Some(first) && ParseInt(hi) == Some(last)
  }

  /** One comma-separated token: with a dash it must split into exactly two
      integers (`start, end = map(int, part.split("-"))`), otherwise it is one
      integer (`int(part)`). Neither can be negative: a minus sign is a dash. */
  function ParsePortToken(part: string): (t: Option<PortToken>)
    ensures t.Some? ==> (t.value.Span? <==> '-' in part)
    ensures '-' !in part ==> (t.Some? <==> ParseInt(part).Some?)
    ensures t.Some? && t.value.Single? ==> ParseInt(part) == Some(t.value.port)
    ensures t.Some? && t.value.Span? ==> SpanText(part, t.value.first, t.value.last)
  {
    if '-' in part then
      var bounds := Split(part, '-');
      if |bounds| != 2 then None
      else
        match (ParseInt(bounds[0]), ParseInt(bounds[1]))
        case (Some(a), Some(b)) =>
          JoinTwo(bounds, '-');
          assert part == bounds[0] + "-" + bounds[1];
          Some(Span(a, b))
        case _ => None
    else
      match ParseInt(part)
      case Some(n) => Some(Single(n))
      case None => None
  }

  /** `range(lo, hi)`, as a set: the integers from `lo` up to but excluding `hi`,
      none at all when `hi <= lo`. */
  function Range(lo: nat, hi: int): (r: set<nat>)
    ensures forall i: nat :: i in r <==> lo <= i < hi
    ensures |r| == if lo < hi then hi - lo else 0
    decreases hi - lo
  {
    if hi <= lo then {} else Range(lo, hi - 1) + {(hi - 1) as nat}
  }

  /** `list(range(lo, hi))`. */
  function RangeList(lo: nat, hi: int): (r: seq<nat>)
    ensures |r| == if lo < hi then hi - lo else 0
    ensures forall k | 0 <= k < |r| :: r[k] == lo + k
  {
    if hi <= lo then [] else seq(hi - lo, k requires 0 <= k < hi - lo => lo + k)
  }

  /** The list `range(lo, hi)` holds exactly the numbers of the set `Range(lo, hi)`. */
  lemma ElemsRangeList(lo: nat, hi: int)
    ensures Elems(RangeList(lo, hi)) == Range(lo, hi)
  {
    var r := RangeList(lo, hi);
    forall x: nat | x in Range(lo, hi)
      ensures x in Elems(r)
    {
      assert r[x - lo] == x;
    }
  }

  /** The ports a token adds: `[n]`, or `range(first, last + 1)`. */
  function TokenPorts(t: PortToken): set<nat> {
    match t
    case Single(n) => {n}
    case Span(a, b) => Range(a, b + 1)
  }

  function PortsOfToken(part: string): Option<set<nat>> {
    match ParsePortToken(part)
    case Some(t) => Some(TokenPorts(t))
    case None => None
  }

  /** Whether token `t` stands for port `p`. */
  predicate PortIn(p: nat, t: PortToken) {
    match t
    case Single(n) => p == n
    case Span(a, b) => a <= p <= b
  }

  /** A token contributes ports exactly when it parses, and then it contributes
      its single port, or every port from the lower to the upper bound. */
  lemma TokenPortsMeaning(part: string, p: nat)
    ensures PortsOfToken(part).Some? <==> ParsePortToken(part).Some?
    ensures PortsOfToken(part).Some? ==> (p in PortsOfToken(part).value <==> PortIn(p, ParsePortToken(part).value))
  {
  }

  /** The ports of a port specification, or None when a token is malformed. */
  function PortsOf(spec: string): Option<set<nat>> {
    Expand(Split(spec, ','), PortsOfToken)
  }

  /** `parse_ports(ports_str)`: fails when any token is malformed; otherwise the
      distinct ports of all tokens, ascending. */
  method ParsePorts(spec: string) returns (r: Result<seq<nat>>)
    ensures r.Ok? <==> PortsOf(spec).Some?
    ensures r.Ok? ==> Elems(r.value) == PortsOf(spec).value
    ensures r.Ok? ==> Ascending(r.value, NatLess)
  {
    var parts := Split(spec, ',');
    var ports: seq<nat> := [];
    ElemsEmpty(ports);
    for j := 0 to |parts|
      invariant Expand(parts[..j], PortsOfToken) == Some(Elems(ports))
    {
      ExpandStep(parts, j, PortsOfToken);
      match ParsePortToken(parts[j]) {
        case None =>
          ExpandDefined(parts, PortsOfToken);
          return Err("invalid port specification: " + parts[j]);
        case Some(Single(n)) =>
          ElemsConcat(ports, [n]);
          assert Elems([n]) == {n};
          ports := ports + [n];
        case Some(Span(first, last)) =>
          var span := RangeList(first, last + 1);
          ElemsConcat(ports, span);
          ElemsRangeList(first, last + 1);
          ports := ports + span;
      }
    }
    assert parts[..|parts|] == parts;
    NatLessIsStrictTotalOrder();
    r := Ok(SortedSet(ports, NatLess));
  }

  // ---------------------------------------------------------------------------
  // Facts about port specifications

  /** A port specification parses exactly when every comma-separated token (`parts`)
      does, and its ports are then those of its tokens (see `TokenPortsMeaning`
      for what one token stands for). */
  lemma PortsOfMeaning(spec: string, parts: seq<string>, p: nat)
    requires parts == Split(spec, ',')
    ensures PortsOf(spec).Some? <==> forall i | 0 <= i < |parts| :: PortsOfToken(parts[i]).Some?
    ensures PortsOf(spec).Some? ==>
      (p in PortsOf(spec).value <==>
         exists i | 0 <= i < |parts| :: PortsOfToken(parts[i]).Some? && p in PortsOfToken(parts[i]).value)
  {
    ExpandDefined(parts, PortsOfToken);
    if PortsOf(spec).Some? {
      ExpandMembers(parts, PortsOfToken, p);
    }
  }

  lemma DigitsExclude(s: string, c: char)
    requires AllDigits(s) && !IsDigit(c)
    ensures c !in s
  {
  }

  /** `N`, written the way `str` writes numbers, reads back as the single port `N`. */
  lemma SinglePortRoundTrip(n: nat)
    ensures ParsePortToken(NatToString(n)) == Some(Single(n))
  {
    DigitsExclude(NatToString(n), '-');
    ParseIntNatToString(n);
  }

  /** `A-B`, written the way `str` writes numbers, reads back as the span from `A`
      to `B`; a reversed span (`A > B`) adds no port. */
  lemma SpanRoundTrip(a: nat, b: nat)
    ensures ParsePortToken(NatToString(a) + "-" + NatToString(b)) == Some(Span(a, b))
    ensures a > b ==> TokenPorts(Span(a, b)) == {}
  {
    var sa, sb := NatToString(a), NatToString(b);
    var s := sa + "-" + sb;
    assert s == sa + ['-'] + sb;
    assert s[|sa|] == '-';
    DigitsExclude(sa, '-');
    DigitsExclude(sb, '-');
    SplitAfterPiece(sa, '-', sb);
    assert Split(s, '-') == [sa, sb];
    ParseIntNatToString(a);
    ParseIntNatToString(b);
  }

  /** Conversely, any two dash-free integers joined by one dash make a span. */
  lemma SpanOfBounds(lo: string, hi: string)
    requires '-' !in lo && '-' !in hi
    requires ParseInt(lo).Some? && ParseInt(hi).Some?
    ensures ParsePortToken(lo + "-" + hi) == Some(Span(ParseInt(lo).value, ParseInt(hi).value))
  {
    var s := lo + "-" + hi;
    assert s == lo + ['-'] + hi;
    assert s[|lo|] == '-';
    SplitAfterPiece(lo, '-', hi);
    assert Split(s, '-') == [lo, hi];
  }

  lemma ParseIntEmpty()
    ensures ParseInt("") == None
  {
    assert Strip("") == "";
  }

  /** A token with more than one dash (`1-2-3`) is rejected. */
  lemma PortTokenTooManyDashes(part: string)
    requires |Split(part, '-')| > 2
    ensures ParsePortToken(part) == None
  {
  }

  /** A token that starts with a dash (`-5`) is rejected: its lower bound is empty. */
  lemma PortTokenLeadingDash(part: string)
    requires |part| > 0 && part[0] == '-'
    ensures ParsePortToken(part) == None
  {
    var bounds := Split(part, '-');
    assert part[0] in part;
    if |bounds| == 2 {
      assert Join(bounds, '-') == bounds[0] + ['-'] + bounds[1];
      assert |bounds[0]| == 0;
      ParseIntEmpty();
    }
  }

  /** A token with no digit and no dash, such as `x`, is rejected. */
  lemma PortTokenNotANumber(part: string)
    requires '-' !in part && forall i | 0 <= i < |part| :: !IsDigit(part[i])
    ensures ParsePortToken(part) == None
  {
    ParseIntNeedsDigit(part);
  }

  // ===========================================================================
  // Hosts: whitespace-separated tokens

  /** The four kinds of host token, told apart the way `parse_hosts` does: a slash
      means a CIDR block, otherwise a dash means a last-octet range (or nothing
      at all, when the token does not have that shape), otherwise a plain host. */
  datatype HostToken =
    | Network(block: string)
    | OctetRange(prefix: string, first: nat, last: nat)
    | Unmatched
    | Plain(host: string)

  /** `\d+` followed by `sep` at the start of `s`: the digits and what follows
      the separator. */
  function DigitsThen(s: string, sep: char): (r: Option<(string, string)>)
    ensures r.Some? ==> |r.value.0| > 0 && AllDigits(r.value.0) && s == r.value.0 + [sep] + r.value.1
  {
    var d := LeadingRun(s, IsDigit);
    if |d| == 0 || |d| == |s| || s[|d|] != sep then None
    else
      assert s == s[..|d|] + [sep] + s[|d| + 1..];
      Some((d, s[|d| + 1..]))
  }

  /** The groups of a `W.X.Y.A-B` token: five runs of digits, and a rest that
      does not continue the last run. */
  predicate OctetPieces(w: string, x: string, y: string, sa: string, sb: string, rest: string) {
    && |w| > 0 && |x| > 0 && |y| > 0 && |sa| > 0 && |sb| > 0
    && AllDigits(w) && AllDigits(x) && AllDigits(y) && AllDigits(sa) && AllDigits(sb)
    && (|rest| == 0 || !IsDigit(rest[0]))
  }

  /** `re.match(r"(\d+\.\d+\.\d+)\.(\d+)-(\d+)", s)`: anchored at the start but
      not at the end; each `\d+` takes its whole run of digits, since what
      follows each one is not a digit. Yields the first three octets and the
      two bounds, as `int()` reads them. */
  function MatchOctetRange(s: string): (r: Option<(string, nat, nat)>)
    ensures r.Some? ==> OctetRangeOf(s, r.value)
  {
    match DigitsThen(s, '.')
    case None => None
    case Some((w, r1)) =>
      match DigitsThen(r1, '.')
      case None => None
      case Some((x, r2)) =>
        match DigitsThen(r2, '.')
        case None => None
        case Some((y, r3)) =>
          match DigitsThen(r3, '-')
          case None => None
          case Some((a, r4)) =>
            var b := LeadingRun(r4, IsDigit);
            if |b| == 0 then None
            else
              OctetRangeOfPieces(s, w, r1, x, r2, y, r3, a, r4, b);
              Some((w + "." + x + "." + y, NumeralValue(a), NumeralValue(b)))
  }

  /** `s` starts with `W.X.Y.A-B`, not followed by a further digit, and `m` is
      the prefix `W.X.Y` with the values of `A` and `B`. */
  ghost predicate OctetRangeOf(s: string, m: (string, nat, nat)) {
    exists w, x, y, sa, sb, rest | OctetPieces(w, x, y, sa, sb, rest) ::
      && s == w + "." + x + "." + y + "." + sa + "-" + sb + rest
      && m == (w + "." + x + "." + y, NumeralValue(sa), NumeralValue(sb))
  }

  /** The pieces the matcher cut out of `s` witness its shape. */
  lemma OctetRangeOfPieces(s: string, w: string, r1: string, x: string, r2: string, y: string, r3: string,
                            sa: string, r4: string, sb: string)
    requires |w| > 0 && |x| > 0 && |y| > 0 && |sa| > 0 && |sb| > 0
    requires AllDigits(w) && AllDigits(x) && AllDigits(y) && AllDigits(sa)
    requires s == w + ['.'] + r1 && r1 == x + ['.'] + r2 && r2 == y + ['.'] + r3 && r3 == sa + ['-'] + r4
    requires sb == LeadingRun(r4, IsDigit)
    ensures OctetRangeOf(s, (w + "." + x + "." + y, NumeralValue(sa), NumeralValue(sb)))
  {
    var rest := r4[|sb|..];
    assert r4 == sb + rest;
    assert OctetPieces(w, x, y, sa, sb, rest);
    OctetRangeText(w, x, y, sa, sb, rest);
  }

  /** The branch of the `if`/`elif` chain a host token takes: a slash makes a
      network, else a dash a range (or nothing, when the pattern fails), else
      the token itself. */
  function ClassifyHostToken(part: string): (c: HostToken)
    ensures c.Network? <==> '/' in part
    ensures c.Network? ==> c.block == part
    ensures c.Plain? <==> '/' !in part && '-' !in part
    ensures c.Plain? ==> c.host == part
    ensures c.OctetRange? <==> '/' !in part && '-' in part && MatchOctetRange(part).Some?
    ensures c.OctetRange? ==> MatchOctetRange(part) == Some((c.prefix, c.first, c.last))
  {
    if '/' in part then Network(part)
    else if '-' in part then
      match MatchOctetRange(part)
      case Some((prefix, first, last)) => OctetRange(prefix, first, last)
      case None => Unmatched
    else Plain(part)
  }

  /** `W.X.Y.i` for every `first <= i <= last`; no bound of 255 is applied. */
  function RangeHosts(prefix: string, first: nat, last: int): set<string> {
    set i | i in Range(first, last + 1) :: prefix + "." + NatToString(i)
  }

  /** The list the generator over `range(first, last + 1)` yields. */
  function RangeHostList(prefix: string, first: nat, last: int): seq<string> {
    var ns := RangeList(first, last + 1);
    seq(|ns|, k requires 0 <= k < |ns| => prefix + "." + NatToString(ns[k]))
  }

  /** The generated list holds exactly the hosts of the range. */
  lemma ElemsRangeHostList(prefix: string, first: nat, last: int)
    ensures Elems(RangeHostList(prefix, first, last)) == RangeHosts(prefix, first, last)
  {
    var ns := RangeList(first, last + 1);
    var r := RangeHostList(prefix, first, last);
    ElemsRangeList(first, last + 1);
    forall h | h in RangeHosts(prefix, first, last)
      ensures h in Elems(r)
    {
      var i :| i in Range(first, last + 1) && h == prefix + "." + NatToString(i);
      assert r[i - first] == h;
    }
    forall h | h in Elems(r)
      ensures h in RangeHosts(prefix, first, last)
    {
      var k :| 0 <= k < |r| && r[k] == h;
      assert ns[k] in Range(first, last + 1);
    }
  }

  /** What one host token adds; `cidr` stands for the `ipaddress` expansion of a
      block into its usable hosts, None where `ip_network` raises. */
  function TokenHosts(t: HostToken, cidr: string -> Option<seq<string>>): Option<set<string>> {
    match t
    case Network(block) =>
      (match cidr(block)
       case Some(hs) => Some(Elems(hs))
       case None => None)
    case OctetRange(prefix, first, last) => Some(RangeHosts(prefix, first, last))
    case Unmatched => Some({})
    case Plain(h) => Some({h})
  }

  function HostsOfToken(part: string, cidr: string -> Option<seq<string>>): Option<set<string>> {
    TokenHosts(ClassifyHostToken(part), cidr)
  }

  /** `HostsOfToken` with the CIDR expansion fixed, as one function of the token. */
  function HostExpander(cidr: string -> Option<seq<string>>): string -> Option<set<string>> {
    part => HostsOfToken(part, cidr)
  }

  /** The hosts of a host specification, or None when a CIDR block is malformed. */
  function HostsOf(spec: string, cidr: string -> Option<seq<string>>): Option<set<string>> {
    Expand(Words(spec), HostExpander(cidr))
  }

  /** `parse_hosts(hosts_str)`: fails only when a CIDR block does not parse;
      otherwise the distinct hosts of all tokens, in string order. */
  method ParseHosts(spec: string, cidr: string -> Option<seq<string>>) returns (r: Result<seq<string>>)
    ensures r.Ok? <==> HostsOf(spec, cidr).Some?
    ensures r.Ok? ==> Elems(r.value) == HostsOf(spec, cidr).value
    ensures r.Ok? ==> Ascending(r.value, LexLess)
  {
    var parts := Words(spec);
    var expand := HostExpander(cidr);
    var hosts: seq<string> := [];
    ElemsEmpty(hosts);
    for j := 0 to |parts|
      invariant Expand(parts[..j], expand) == Some(Elems(hosts))
    {
      var token := ClassifyHostToken(parts[j]);
      ExpandStep(parts, j, expand);
      assert expand(parts[j]) == TokenHosts(token, cidr);
      match token {
        case Network(block) =>
          var expanded := cidr(block);
          if expanded.None? {
            ExpandDefined(parts, expand);
            return Err("does not appear to be an IPv4 or IPv6 network: " + block);
          }
          ElemsConcat(hosts, expanded.value);
          hosts := hosts + expanded.value;
        case OctetRange(prefix, first, last) =>
          var block := RangeHostList(prefix, first, last);
          ElemsConcat(hosts, block);
          ElemsRangeHostList(prefix, first, last);
          hosts := hosts + block;
        case Unmatched =>
          assert Elems(hosts) + {} == Elems(hosts);
        case Plain(h) =>
          ElemsConcat(hosts, [h]);
          assert Elems([h]) == {h};
          hosts := hosts + [h];
      }
    }
    assert parts[..|parts|] == parts;
    StringOrderIsStrictTotalOrder();
    r := Ok(SortedSet(hosts, LexLess));
  }

  // ---------------------------------------------------------------------------
  // Facts about host specifications

  /** A host specification (`parts` are its words) parses exactly when every CIDR block in it does, and
      its hosts are then those of its tokens. */
  lemma HostsOfMeaning(spec: string, cidr: string -> Option<seq<string>>, parts: seq<string>, h: string)
    requires parts == Words(spec)
    ensures HostsOf(spec, cidr).Some? <==> forall i | 0 <= i < |parts| :: HostsOfToken(parts[i], cidr).Some?
    ensures HostsOf(spec, cidr).Some? ==>
      (h in HostsOf(spec, cidr).value <==>
         exists i | 0 <= i < |parts| :: HostsOfToken(parts[i], cidr).Some? && h in HostsOfToken(parts[i], cidr).value)
  {
    var expand := HostExpander(cidr);
    ExpandDefined(parts, expand);
    assert forall i | 0 <= i < |parts| :: expand(parts[i]) == HostsOfToken(parts[i], cidr);
    if HostsOf(spec, cidr).Some? {
      ExpandMembers(parts, expand, h);
    }
  }

  lemma DigitsThenOf(run: string, sep: char, rest: string)
    requires |run| > 0 && AllDigits(run) && !IsDigit(sep)
    ensures DigitsThen(run + [sep] + rest, sep) == Some((run, rest))
  {
    var s := run + [sep] + rest;
    assert s == run + ([sep] + rest);
    LeadingRunOf(run, [sep] + rest, IsDigit);
    assert s[|run|] == sep;
    assert s[|run| + 1..] == rest;
  }

  /** The matcher on a token already cut into its pieces. */
  lemma OctetRangePieces(w: string, x: string, y: string, sa: string, sb: string, rest: string)
    requires OctetPieces(w, x, y, sa, sb, rest)
    ensures MatchOctetRange(w + ['.'] + (x + ['.'] + (y + ['.'] + (sa + ['-'] + (sb + rest)))))
            == Some((w + "." + x + "." + y, NumeralValue(sa), NumeralValue(sb)))
  {
    var t4 := sb + rest;
    var t3 := sa + ['-'] + t4;
    var t2 := y + ['.'] + t3;
    var t1 := x + ['.'] + t2;
    DigitsThenOf(w, '.', t1);
    DigitsThenOf(x, '.', t2);
    DigitsThenOf(y, '.', t3);
    DigitsThenOf(sa, '-', t4);
    LeadingRunOf(sb, rest, IsDigit);
  }

  /** Regrouping the token text into its pieces. */
  lemma OctetRangeText(w: string, x: string, y: string, sa: string, sb: string, rest: string)
    ensures w + "." + x + "." + y + "." + sa + "-" + sb + rest
            == w + ['.'] + (x + ['.'] + (y + ['.'] + (sa + ['-'] + (sb + rest))))
  {
  }

  /** `W.X.Y.A-B` (followed by anything that does not start with a digit) is read
      as the prefix `W.X.Y` and the bounds `A` and `B`. */
  lemma OctetRangeRoundTrip(w: string, x: string, y: string, a: nat, b: nat, rest: string)
    requires |w| > 0 && |x| > 0 && |y| > 0 && AllDigits(w) && AllDigits(x) && AllDigits(y)
    requires |rest| == 0 || !IsDigit(rest[0])
    ensures MatchOctetRange(w + "." + x + "." + y + "." + NatToString(a) + "-" + NatToString(b) + rest)
            == Some((w + "." + x + "." + y, a, b))
  {
    var sa, sb := NatToString(a), NatToString(b);
    OctetRangeText(w, x, y, sa, sb, rest);
    OctetRangePieces(w, x, y, sa, sb, rest);
    NumeralValueOfNatToString(a);
    NumeralValueOfNatToString(b);
  }

  /** A token the range pattern matches, with a dash and no slash, stands for
      the hosts of its range. */
  lemma RangeHostsOfMatch(token: string, prefix: string, a: nat, b: nat, cidr: string -> Option<seq<string>>)
    requires '/' !in token && '-' in token
    requires MatchOctetRange(token) == Some((prefix, a, b))
    ensures HostsOfToken(token, cidr) == Some(RangeHosts(prefix, a, b))
  {
  }

  /** The pieces of a range token hold a dash and, when the text after it
      holds none, no slash. */
  lemma OctetTokenChars(w: string, x: string, y: string, sa: string, sb: string, rest: string)
    requires AllDigits(w) && AllDigits(x) && AllDigits(y) && AllDigits(sa) && AllDigits(sb)
    requires '/' !in rest
    ensures '-' in w + ['.'] + (x + ['.'] + (y + ['.'] + (sa + ['-'] + (sb + rest))))
    ensures '/' !in w + ['.'] + (x + ['.'] + (y + ['.'] + (sa + ['-'] + (sb + rest))))
  {
    DigitsExclude(w, '/');
    DigitsExclude(x, '/');
    DigitsExclude(y, '/');
    DigitsExclude(sa, '/');
    DigitsExclude(sb, '/');
    var t3 := sa + ['-'] + (sb + rest);
    assert '-' in t3 by { assert t3[|sa|] == '-'; }
  }

  /** A last-octet range token `W.X.Y.A-B` (followed by anything that does not
      start with a digit or hold a slash) yields `W.X.Y.i` for each `i` from `A`
      to `B`. */
  lemma RangeTokenHosts(w: string, x: string, y: string, a: nat, b: nat, rest: string,
                        token: string, cidr: string -> Option<seq<string>>)
    requires |w| > 0 && |x| > 0 && |y| > 0 && AllDigits(w) && AllDigits(x) && AllDigits(y)
    requires |rest| == 0 || !IsDigit(rest[0])
    requires '/' !in rest
    requires token == w + "." + x + "." + y + "." + NatToString(a) + "-" + NatToString(b) + rest
    ensures HostsOfToken(token, cidr) == Some(RangeHosts(w + "." + x + "." + y, a, b))
  {
    var sa, sb := NatToString(a), NatToString(b);
    OctetRangeText(w, x, y, sa, sb, rest);
    var nested := w + ['.'] + (x + ['.'] + (y + ['.'] + (sa + ['-'] + (sb + rest))));
    OctetRangePieces(w, x, y, sa, sb, rest);
    NumeralValueOfNatToString(a);
    NumeralValueOfNatToString(b);
    OctetTokenChars(w, x, y, sa, sb, rest);
    RangeHostsOfMatch(nested, w + "." + x + "." + y, a, b, cidr);
  }

  /** A range written with a full address on both sides, `10.0.0.1-10.0.0.3`,
      is read by the pattern, which is not anchored at the end, as
      `10.0.0.1-10` followed by `.0.0.3`: it yields the ten hosts from
      `10.0.0.1` to `10.0.0.10`. */
  lemma FullAddressRange(cidr: string -> Option<seq<string>>)
    ensures HostsOfToken("10.0.0.1-10.0.0.3", cidr) == Some(RangeHosts("10.0.0", 1, 10))
    ensures "10.0.0.10" in RangeHosts("10.0.0", 1, 10)
    ensures "10.0.0.4" in RangeHosts("10.0.0", 1, 10)
  {
    FullAddressText();
    FullAddressPieces(cidr);
    FullAddressHosts();
  }

  /** The token text, assembled from its pieces. */
  lemma FullAddressText()
    ensures "10" + "." + "0" + "." + "0" + "." + NatToString(1) + "-" + NatToString(10) + ".0.0.3" == "10.0.0.1-10.0.0.3"
    ensures "10" + "." + "0" + "." + "0" == "10.0.0"
  {
    SmallNumerals();
  }

  /** The general range lemma, applied to those pieces. */
  lemma FullAddressPieces(cidr: string -> Option<seq<string>>)
    ensures HostsOfToken("10" + "." + "0" + "." + "0" + "." + NatToString(1) + "-" + NatToString(10) + ".0.0.3", cidr)
            == Some(RangeHosts("10" + "." + "0" + "." + "0", 1, 10))
  {
    assert AllDigits("10") && AllDigits("0");
    RangeTokenHosts("10", "0", "0", 1, 10, ".0.0.3", "10" + "." + "0" + "." + "0" + "." + NatToString(1) + "-" + NatToString(10) + ".0.0.3", cidr);
  }

  /** The range reaches the tenth host. */
  lemma FullAddressHosts()
    ensures "10.0.0.10" in RangeHosts("10.0.0", 1, 10)
    ensures "10.0.0.4" in RangeHosts("10.0.0", 1, 10)
  {
    SmallNumerals();
    assert "10.0.0.10" == "10.0.0" + "." + NatToString(10);
    assert "10.0.0.4" == "10.0.0" + "." + NatToString(4);
    assert 10 in Range(1, 11) && 4 in Range(1, 11);
  }

  /** `str(1)`, `str(4)` and `str(10)`. */
  lemma SmallNumerals()
    ensures NatToString(1) == "1" && NatToString(4) == "4" && NatToString(10) == "10"
  {
    assert NatToString(10) == NatToString(1) + [DigitChar(0)];
  }

  /** Different numbers of a range give different hosts, so the range yields
      one host per number from first to last. */
  lemma RangeHostsDistinct(prefix: string, i: nat, k: nat)
    requires i != k
    ensures prefix + "." + NatToString(i) != prefix + "." + NatToString(k)
  {
    var hi, hk := prefix + "." + NatToString(i), prefix + "." + NatToString(k);
    if hi == hk {
      assert NatToString(i) == hi[|prefix| + 1..];
      assert NatToString(k) == hk[|prefix| + 1..];
      NatToStringInjective(i, k);
    }
  }

  /** A dashed token without the `W.X.Y.A-B` shape adds no host: it is neither
      kept as written nor reported as an error. */
  lemma DashedHostDropped(part: string, cidr: string -> Option<seq<string>>)
    requires '/' !in part && '-' in part
    requires MatchOctetRange(part).None?
    ensures ClassifyHostToken(part) == Unmatched
    ensures HostsOfToken(part, cidr) == Some({})
  {
  }

  /** In particular a host name with a dash, such as `my-host`, never matches
      the octet-range pattern, which must start with a digit. */
  lemma DashedNameDropped(part: string, cidr: string -> Option<seq<string>>)
    requires '/' !in part && '-' in part
    requires !IsDigit(part[0])
    ensures ClassifyHostToken(part) == Unmatched
    ensures HostsOfToken(part, cidr) == Some({})
  {
    assert LeadingRun(part, IsDigit) == [];
    DashedHostDropped(part, cidr);
  }

  /** A token with neither a slash nor a dash is kept exactly as written. */
  lemma PlainHostKept(part: string, cidr: string -> Option<seq<string>>)
    requires '/' !in part && '-' !in part
    ensures HostsOfToken(part, cidr) == Some({part})
  {
  }

  /** Hosts are ordered as strings, not as addresses: `10.0.0.10` comes before `10.0.0.9`. */
  lemma HostOrderIsTextual()
    ensures LexLess("10.0.0.10", "10.0.0.9")
    ensures !LexLess("10.0.0.9", "10.0.0.10")
  {
  }
}
