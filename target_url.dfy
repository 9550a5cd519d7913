/** `extract_base_url_and_uid` of the MSSQL health mapper: the base URL and the
    data-source uid of a Grafana data-source edit page, found with `re.search`
    and the pattern `(https?://[^/]+)/connections/datasources/edit/([a-zA-Z0-9]+)$`. */
module TargetUrl {
  import opened Wrappers
  import opened PyText

  const EditPath: string := "/connections/datasources/edit/"

  predicate NotSlash(c: char) { c != '/' }


  /** What the second group can hold: one or more ASCII letters and digits. */
  predicate IsUid(u: string) {
    |u| > 0 && forall k | 0 <= k < |u| :: IsAlnum(u[k])
  }

  // ---------------------------------------------------------------------------
  // The pattern, piece by piece, each on what the previous piece left

  /** `https?://`: `s?` tries the `s` first; the two alternatives never both fit. */
  function MatchScheme(t: string): (r: Option<(string, string)>)
    ensures r.Some? ==> r.value.0 in {"https://", "http://"} && t == r.value.0 + r.value.1
  {
    if HasPrefix(t, "https://") then
      assert t == t[..8] + t[8..];
      Some(("https://", t[8..]))
    else if HasPrefix(t, "http://") then
      assert t == t[..7] + t[7..];
      Some(("http://", t[7..]))
    else None
  }

  /** The scheme matcher takes exactly the scheme that starts the text. */
  lemma SchemeThen(scheme: string, rest: string)
    requires scheme in {"https://", "http://"}
    ensures MatchScheme(scheme + rest) == Some((scheme, rest))
  {
    var t := scheme + rest;
    ConcatSlices(scheme, rest);
    if scheme == "http://" {
      assert t[4] == ':';
    }
  }

  /** What the first group can hold: `http://` or `https://` and then a
      non-empty host part without a slash. */
  predicate IsBaseUrl(b: string) {
    MatchScheme(b).Some? && |MatchScheme(b).value.1| > 0 && '/' !in MatchScheme(b).value.1
  }

  /** `[^/]+` and then the edit path. The host can only end where its run of
      non-slash characters ends, since the path starts with a slash. */
  function MatchHostAndPath(t: string): (r: Option<(string, string)>)
    ensures r.Some? ==> |r.value.0| > 0 && '/' !in r.value.0 && t == r.value.0 + EditPath + r.value.1
  {
    var host := LeadingRun(t, NotSlash);
    var rest := t[|host|..];
    if |host| == 0 || !HasPrefix(rest, EditPath) then None
    else
      assert '/' !in host by {
        forall k | 0 <= k < |host| ensures host[k] != '/' { assert NotSlash(host[k]); }
      }
      assert t == host + rest;
      assert rest == rest[..|EditPath|] + rest[|EditPath|..];
      Some((host, rest[|EditPath|..]))
  }

  /** `[a-zA-Z0-9]+$`: the uid is the whole run of letters and digits, and `$`
      fits only at the end or before a final newline. */
  function MatchUidAtEnd(t: string): (r: Option<string>)
    ensures r.Some? ==> IsUid(r.value) && (t == r.value || t == r.value + "\n")
  {
    var uid := LeadingRun(t, IsAlnum);
    var tail := t[|uid|..];
    assert t == uid + tail;
    if |uid| > 0 && (tail == "" || tail == "\n") then Some(uid) else None
  }

  /** The pattern, anchored at the start of `t`, with its two groups. */
  function MatchAt(t: string): (m: Option<(string, string)>)
    ensures m.Some? ==> IsBaseUrl(m.value.0) && IsUid(m.value.1)
    ensures m.Some? ==>
      || t == m.value.0 + EditPath + m.value.1
      || t == m.value.0 + EditPath + m.value.1 + "\n"
  {
    match MatchScheme(t)
    case None => None
    case Some((scheme, r1)) =>
      match MatchHostAndPath(r1)
      case None => None
      case Some((host, r2)) =>
        match MatchUidAtEnd(r2)
        case None => None
        case Some(uid) =>
          SchemeThen(scheme, host);
          ConcatAssoc(scheme, host, EditPath);
          ConcatAssoc(scheme + host, EditPath, r2);
          ConcatAssoc(scheme, host + EditPath, r2);
          ConcatAssoc(host, EditPath, r2);
          Some((scheme + host, uid))
  }

  // ---------------------------------------------------------------------------
  // re.search

  /** `re.search` from position `i` on, for any anchored matcher: the match at
      the first position where it fits. */
  function SearchFrom<T>(s: string, i: nat, matchAt: string -> Option<T>): (r: Option<T>)
    requires i <= |s|
    ensures r.Some? <==> exists k | i <= k <= |s| :: matchAt(s[k..]).Some?
    ensures r.Some? ==> exists k | i <= k <= |s| ::
      matchAt(s[k..]) == r && forall j | i <= j < k :: matchAt(s[j..]).None?
    decreases |s| - i
  {
    match matchAt(s[i..])
    case Some(m) => Some(m)
    case None => if i == |s| then None else SearchFrom(s, i + 1, matchAt)
  }

  /** `extract_base_url_and_uid(target_url)`: the two groups of the leftmost
      match; the script stops with "Invalid target URL format" when there is
      none. */
  function ExtractBaseUrlAndUid(url: string): (r: Result<(string, string)>)
    ensures r.Ok? <==> exists k | 0 <= k <= |url| :: MatchAt(url[k..]).Some?
    ensures r.Ok? ==> exists k | 0 <= k <= |url| :: MatchAt(url[k..]) == Some(r.value)
  {
    match SearchFrom(url, 0, MatchAt)
    case Some(m) => Ok(m)
    case None => Err("Invalid target URL format: " + url)
  }

  // ---------------------------------------------------------------------------
  // Facts about the pattern

  /** The extraction takes the leftmost match: the pattern fits at no earlier
      position. */
  lemma ExtractLeftmost(url: string)
    requires ExtractBaseUrlAndUid(url).Ok?
    ensures exists k | 0 <= k <= |url| ::
      && MatchAt(url[k..]) == Some(ExtractBaseUrlAndUid(url).value)
      && forall j | 0 <= j < k :: MatchAt(url[j..]).None?
  {
    var r := SearchFrom(url, 0, MatchAt);
    var k :| 0 <= k <= |url| && MatchAt(url[k..]) == r && forall j | 0 <= j < k :: MatchAt(url[j..]).None?;
  }

  /** A slice that runs to the end of a string is a suffix of it, and ends with
      the string's last character. */
  lemma SuffixFrom(s: string, k: nat, w: string)
    requires k <= |s| && s[k..] == w
    ensures HasSuffix(s, w)
    ensures |w| > 0 ==> s[|s| - 1] == w[|w| - 1]
  {
    assert s[|s| - |w|..] == s[k..];
  }

  /** A text that ends with a uid, or with a uid and a newline, ends in a letter,
      a digit or a newline. */
  lemma EndsWithMatch(s: string, k: nat, base: string, uid: string)
    requires k <= |s| && IsUid(uid)
    requires s[k..] == base + EditPath + uid || s[k..] == base + EditPath + uid + "\n"
    ensures HasSuffix(s, base + EditPath + uid) || HasSuffix(s, base + EditPath + uid + "\n")
    ensures IsAlnum(s[|s| - 1]) || s[|s| - 1] == '\n'
  {
    var w := base + EditPath + uid;
    assert w[|w| - 1] == uid[|uid| - 1];
    if s[k..] == w {
      SuffixFrom(s, k, w);
    } else {
      SuffixFrom(s, k, w + "\n");
    }
  }

  /** What a successful extraction returns: a base URL and a uid of the right
      shape, which together with the edit path end the URL (or precede its
      final newline), so the URL ends in a letter, a digit or a newline. */
  lemma ExtractShape(url: string)
    requires ExtractBaseUrlAndUid(url).Ok?
    ensures IsBaseUrl(ExtractBaseUrlAndUid(url).value.0) && IsUid(ExtractBaseUrlAndUid(url).value.1)
    ensures
      || HasSuffix(url, ExtractBaseUrlAndUid(url).value.0 + EditPath + ExtractBaseUrlAndUid(url).value.1)
      || HasSuffix(url, ExtractBaseUrlAndUid(url).value.0 + EditPath + ExtractBaseUrlAndUid(url).value.1 + "\n")
    ensures IsAlnum(url[|url| - 1]) || url[|url| - 1] == '\n'
  {
    var m := ExtractBaseUrlAndUid(url).value;
    var k :| 0 <= k <= |url| && MatchAt(url[k..]) == Some(m);
    EndsWithMatch(url, k, m.0, m.1);
  }

  /** A non-empty host without a slash, then the edit path, is taken whole. */
  lemma HostAndPathOf(host: string, rest: string)
    requires |host| > 0 && '/' !in host
    ensures MatchHostAndPath(host + EditPath + rest) == Some((host, rest))
  {
    var t := host + EditPath + rest;
    ConcatAssoc(host, EditPath, rest);
    ConcatSlices(EditPath, rest);
    assert forall k | 0 <= k < |host| :: NotSlash(host[k]);
    assert (EditPath + rest)[0] == '/';
    LeadingRunOf(host, EditPath + rest, NotSlash);
    ConcatSlices(host, EditPath + rest);
  }

  /** A uid followed by nothing or by one newline is taken whole. */
  lemma UidAtEndOf(uid: string, tail: string)
    requires IsUid(uid)
    requires tail == "" || tail == "\n"
    ensures MatchUidAtEnd(uid + tail) == Some(uid)
  {
    LeadingRunOf(uid, tail, IsAlnum);
    ConcatSlices(uid, tail);
  }

  /** Every base URL and uid of the right shape is matched from the start, so
      the pattern accepts exactly the strings `MatchAt` describes. */
  lemma MatchAtOf(base: string, uid: string, tail: string)
    requires IsBaseUrl(base) && IsUid(uid)
    requires tail == "" || tail == "\n"
    ensures MatchAt(base + EditPath + uid + tail) == Some((base, uid))
  {
    var (scheme, host) := MatchScheme(base).value;
    var r2 := uid + tail;
    var r1 := host + EditPath + r2;
    var t := base + EditPath + uid + tail;
    ConcatAssoc(base + EditPath, uid, tail);
    ConcatAssoc(base, EditPath, r2);
    ConcatAssoc(scheme, host, EditPath + r2);
    ConcatAssoc(host, EditPath, r2);
    assert t == scheme + r1;
    SchemeThen(scheme, r1);
    HostAndPathOf(host, r2);
    UidAtEndOf(uid, tail);
  }

  /** The URL of a data source's edit page yields its base URL and uid. */
  lemma ExtractRoundTrip(base: string, uid: string)
    requires IsBaseUrl(base) && IsUid(uid)
    ensures ExtractBaseUrlAndUid(base + EditPath + uid) == Ok((base, uid))
    ensures ExtractBaseUrlAndUid(base + EditPath + uid + "\n") == Ok((base, uid))
  {
    var s := base + EditPath + uid;
    MatchAtOf(base, uid, "");
    assert s + "" == s && s[0..] == s;
    MatchAtOf(base, uid, "\n");
    assert (s + "\n")[0..] == s + "\n";
  }

  /** A URL whose last character is neither a letter, a digit nor a newline,
      such as one ending in a slash, is rejected. */
  lemma TrailingCharacterRejected(url: string)
    requires |url| > 0 && !IsAlnum(url[|url| - 1]) && url[|url| - 1] != '\n'
    ensures ExtractBaseUrlAndUid(url).Err?
  {
    if ExtractBaseUrlAndUid(url).Ok? {
      ExtractShape(url);
    }
  }

  /** No match starts at a character other than `h`. */
  lemma NoMatchWithoutScheme(t: string)
    requires |t| > 0 && t[0] != 'h'
    ensures MatchAt(t) == None
  {
    assert MatchScheme(t) == None by {
      assert !HasPrefix(t, "https://") && !HasPrefix(t, "http://") by {
        assert "https://"[0] == 'h' && "http://"[0] == 'h';
      }
    }
  }

  /** The search is not anchored at the start: a leading character that cannot
      begin a scheme, such as a space, is skipped. */
  lemma LeadingTextSkipped(c: char, base: string, uid: string)
    requires c != 'h' && IsBaseUrl(base) && IsUid(uid)
    ensures ExtractBaseUrlAndUid([c] + base + EditPath + uid) == Ok((base, uid))
  {
    var url := base + EditPath + uid;
    var s := [c] + url;
    assert s == [c] + base + EditPath + uid;
    assert s[0..] == s;
    NoMatchWithoutScheme(s);
    assert s[1..] == url;
    MatchAtOf(base, uid, "");
    assert url + "" == url;
    assert SearchFrom(s, 1, MatchAt) == Some((base, uid));
  }
}
