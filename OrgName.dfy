/** `cleanOrgName` of gh-org-summary.mjs: the organisation named by a URL, an
    `orgs/...` path or a bare name, kept as written for display and lowercased
    for the API. */
module OrgName {
  import opened Wrappers
  import opened Strings

  datatype OrgNames = OrgNames(original: string, lower: string)

  const Http: string := "http://"
  const Https: string := "https://"
  const OrgsPrefix: string := "orgs/"
  const Slash: string := "/"
  /** The organisation whose name is always written in lower case. */
  const Usds: string := "usds"

  /** `replace(/^https?:\/\/[^\/]+\//, '')`: the scheme, a non-empty host and the
      slash after it are dropped; without such a host nothing is. */
  function StripHost(s: string): string {
    var rest := if StartsWith(s, Http) then Some(s[|Http|..]) else if StartsWith(s, Https) then Some(s[|Https|..]) else None;
    match rest
    case None => s
    case Some(r) =>
      match Find(r, Slash)
      case Some(i) => if i >= 1 then r[i + 1..] else s
      case None => s
  }

  /** `replace(/^orgs\//, '')`. */
  function StripOrgs(s: string): string {
    if StartsWith(s, OrgsPrefix) then s[|OrgsPrefix|..] else s
  }

  /** `replace(/\/$/, '')`: one trailing slash. */
  function StripTrailingSlash(s: string): string {
    if s != [] && s[|s| - 1] == '/' then s[..|s| - 1] else s
  }

  /** `parts.filter(Boolean)[0]`: the first part that is not empty. */
  function FirstNonEmpty(parts: seq<string>): (r: Option<string>)
    ensures r.Some? ==> exists i :: 0 <= i < |parts| && parts[i] == r.value && r.value != [] &&
                          forall j :: 0 <= j < i ==> parts[j] == []
    ensures r.None? ==> forall i :: 0 <= i < |parts| ==> parts[i] == []
  {
    if parts == [] then None
    else if parts[0] != [] then Some(parts[0])
    else
      var rest := FirstNonEmpty(parts[1..]);
      FirstAfterEmpty(parts, rest);
      rest
  }

  /** A first non-empty part after an empty head is the first of the whole. */
  lemma FirstAfterEmpty(parts: seq<string>, rest: Option<string>)
    requires parts != [] && parts[0] == []
    requires rest.Some? ==> exists i :: 0 <= i < |parts[1..]| && parts[1..][i] == rest.value && rest.value != [] &&
                              forall j :: 0 <= j < i ==> parts[1..][j] == []
    ensures rest.Some? ==> exists i :: 0 <= i < |parts| && parts[i] == rest.value && rest.value != [] &&
                             forall j :: 0 <= j < i ==> parts[j] == []
  {
    if rest.Some? {
      var i :| 0 <= i < |parts[1..]| && parts[1..][i] == rest.value && rest.value != [] &&
                forall j :: 0 <= j < i ==> parts[1..][j] == [];
      forall j | 0 <= j < i + 1 ensures parts[j] == [] {
        if j > 0 {
          assert parts[j] == parts[1..][j - 1];
        }
      }
    }
  }

  /** `name.split('/').filter(Boolean)[0] || name`. */
  function Segment(name: string): string {
    match FirstNonEmpty(Split(name, Slash))
    case None => name
    case Some(p) => p
  }

  /** `cleanOrgName(orgName)`: the organisation as written and, for the API, its
      lowercase. A slash survives only in a name made of slashes alone, and any
      spelling of `usds` is written `usds`. */
  function CleanOrgName(orgName: string): (r: OrgNames)
    ensures r.lower == ToLower(r.original)
    ensures var parts := Split(StripTrailingSlash(StripOrgs(StripHost(orgName))), Slash);
      (exists i :: 0 <= i < |parts| && parts[i] != [] && (forall j :: 0 <= j < i ==> parts[j] == []) &&
         (if ToLower(parts[i]) == Usds then r.original == Usds else r.original == parts[i]))
      || ((forall i :: 0 <= i < |parts| ==> parts[i] == []) && r.original == StripTrailingSlash(StripOrgs(StripHost(orgName))))
    ensures '/' in r.original ==> forall j :: 0 <= j < |r.original| ==> r.original[j] == '/'
    ensures ToLower(r.original) == Usds ==> r.original == Usds
  {
    var name := Segment(StripTrailingSlash(StripOrgs(StripHost(orgName))));
    SegmentShape(StripTrailingSlash(StripOrgs(StripHost(orgName))));
    assert '/' !in Usds;
    SegmentAllSlashes(StripTrailingSlash(StripOrgs(StripHost(orgName))));
    var name' := if ToLower(name) == Usds then Usds else name;
    OrgNames(name', ToLower(name'))
  }

  // ---------------------------------------------------------------------------
  // What the name looks like

  /** No part of a split on a character holds that character. */
  lemma {:induction false} SplitPartsFree(s: string, c: char)
    ensures forall i :: 0 <= i < |Split(s, [c])| ==> c !in Split(s, [c])[i]
    decreases |s|
  {
    match Find(s, [c])
    case None =>
      forall j | 0 <= j < |s| ensures s[j] != c {
        assert !OccursAt(s, [c], j);
        assert s[j..j + 1] == [s[j]];
      }
    case Some(i) =>
      forall j | 0 <= j < i ensures s[j] != c {
        assert !OccursAt(s, [c], j);
        assert s[j..j + 1] == [s[j]];
      }
      SplitPartsFree(s[i + 1..], c);
  }

  /** Only a string made of nothing but that character splits into empty parts. */
  lemma {:induction false} SplitAllEmpty(s: string, c: char)
    requires forall i :: 0 <= i < |Split(s, [c])| ==> Split(s, [c])[i] == []
    ensures forall j :: 0 <= j < |s| ==> s[j] == c
    decreases |s|
  {
    match Find(s, [c])
    case None =>
      assert s == Split(s, [c])[0];
    case Some(i) =>
      assert Split(s, [c])[0] == s[..i];
      assert i == 0 && s[0..1] == [c];
      var rest := s[1..];
      assert Split(s, [c]) == [s[..0]] + Split(rest, [c]);
      forall k | 0 <= k < |Split(rest, [c])| ensures Split(rest, [c])[k] == [] {
        assert Split(rest, [c])[k] == Split(s, [c])[k + 1];
      }
      SplitAllEmpty(rest, c);
      forall j | 0 <= j < |s| ensures s[j] == c {
        if j > 0 {
          assert s[j] == rest[j - 1];
        }
      }
  }

  /** The segment holds no slash unless the name is nothing but slashes, and a
      name without a slash is its own segment. */
  lemma SegmentShape(name: string)
    ensures '/' in Segment(name) ==> forall j :: 0 <= j < |name| ==> name[j] == '/'
    ensures '/' in Segment(name) ==> Segment(name) == name
    ensures '/' !in name ==> Segment(name) == name
  {
    SplitPartsFree(name, '/');
    match FirstNonEmpty(Split(name, Slash))
    case None =>
      SplitAllEmpty(name, '/');
      if '/' !in name {
        NoCharNoFind(name, '/');
      }
    case Some(p) =>
      if '/' !in name {
        NoCharNoFind(name, '/');
        assert Split(name, Slash) == [name];
      }
  }

  /** A name without a slash passes the three replacements unchanged. */
  lemma NoSlashUnstripped(o: string)
    requires '/' !in o
    ensures StripTrailingSlash(StripOrgs(StripHost(o))) == o
  {
    PrefixSlash(o, OrgsPrefix, 4);
    FoundSlash(o, |Http|);
    FoundSlash(o, |Https|);
  }

  /** A prefix with a slash at `k` puts one into the string. */
  lemma PrefixSlash(s: string, prefix: string, k: nat)
    requires k < |prefix| && prefix[k] == '/'
    ensures StartsWith(s, prefix) ==> '/' in s
  {
    if StartsWith(s, prefix) {
      assert s[k] == s[..|prefix|][k];
    }
  }

  /** A slash found after the first `k` characters is a slash of the string. */
  lemma FoundSlash(s: string, k: nat)
    ensures k <= |s| && Find(s[k..], Slash).Some? ==> '/' in s
  {
    if k <= |s| && Find(s[k..], Slash).Some? {
      var i := Find(s[k..], Slash).value;
      assert s[k..][i..i + 1] == Slash;
      assert s[k + i] == '/';
    }
  }

  /** Cleaning a cleaned name without a slash gives it back unchanged. */
  lemma CleanOrgNameIdempotent(orgName: string)
    requires '/' !in CleanOrgName(orgName).original
    ensures CleanOrgName(CleanOrgName(orgName).original) == CleanOrgName(orgName)
  {
    var o := CleanOrgName(orgName).original;
    NoSlashUnstripped(o);
    SegmentShape(o);
    var name := Segment(StripTrailingSlash(StripOrgs(StripHost(orgName))));
    if ToLower(name) == Usds {
      assert o == Usds;
      assert ToLower(Usds) == Usds;
    }
  }

  /** A URL `http(s)://host/rest` with a non-empty host keeps only `rest`. */
  lemma StripHostOf(scheme: string, host: string, rest: string)
    requires scheme == Http || scheme == Https
    requires host != [] && '/' !in host
    ensures StripHost(scheme + host + Slash + rest) == rest
  {
    var s := scheme + host + Slash + rest;
    assert StartsWith(s, scheme) by { assert s[..|scheme|] == scheme; }
    if scheme == Https {
      assert !StartsWith(s, Http) by { assert s[4] == 's'; }
    }
    var r := s[|scheme|..];
    assert r == host + Slash + rest;
    FirstCharFind(host, '/', rest);
    assert r[|host| + 1..] == rest;
  }

  /** `usds` in any case is written `usds`. */
  lemma UsdsExample()
    ensures CleanOrgName("USDS") == OrgNames(Usds, Usds)
  {
    assert StripHost("USDS") == "USDS" by {
      assert !StartsWith("USDS", Http) && !StartsWith("USDS", Https);
    }
    assert !StartsWith("USDS", OrgsPrefix);
    NoCharNoFind("USDS", '/');
    assert Segment("USDS") == "USDS";
    assert ToLower("USDS") == Usds;
  }

  /** `https://host/orgs/Name/` and the like name the organisation `Name`. */
  lemma CleanOrgUrl(scheme: string, host: string, org: string)
    requires scheme == Http || scheme == Https
    requires host != [] && '/' !in host
    requires org != [] && '/' !in org && ToLower(org) != Usds
    ensures CleanOrgName(scheme + host + Slash + (OrgsPrefix + org + Slash)) == OrgNames(org, ToLower(org))
  {
    var url := scheme + host + Slash + (OrgsPrefix + org + Slash);
    StripUrl(scheme, host, org);
    SegmentShape(org);
    assert Segment(StripTrailingSlash(StripOrgs(StripHost(url)))) == org;
  }

  lemma StripUrl(scheme: string, host: string, org: string)
    requires scheme == Http || scheme == Https
    requires host != [] && '/' !in host
    ensures StripTrailingSlash(StripOrgs(StripHost(scheme + host + Slash + (OrgsPrefix + org + Slash)))) == org
  {
    var path := OrgsPrefix + org + Slash;
    StripHostOf(scheme, host, path);
    assert StartsWith(path, OrgsPrefix) by { assert path[..|OrgsPrefix|] == OrgsPrefix; }
    assert StripOrgs(path) == org + Slash;
    assert StripTrailingSlash(org + Slash) == org;
  }

  /** A name whose parts are all empty is not `usds` in any case. */
  lemma SegmentAllSlashes(name: string)
    ensures (forall i :: 0 <= i < |Split(name, Slash)| ==> Split(name, Slash)[i] == []) ==> ToLower(name) != Usds
  {
    if forall i :: 0 <= i < |Split(name, Slash)| ==> Split(name, Slash)[i] == [] {
      SplitAllEmpty(name, '/');
      if |name| == |Usds| {
        assert ToLower(name)[0] == '/';
      }
    }
  }

  /** `http(s)://host/<org>` followed by nothing or by `/...` (a repository, a
      tab, a trailing slash) names the organisation `<org>`: the first segment
      after the host is kept. */
  lemma CleanOrgFirstSegment(scheme: string, host: string, org: string, rest: string)
    requires scheme == Http || scheme == Https
    requires host != [] && '/' !in host
    requires org != [] && '/' !in org && org != "orgs"
    requires rest == [] || rest[0] == '/'
    ensures CleanOrgName(scheme + host + Slash + (org + rest)) ==
            if ToLower(org) == Usds then OrgNames(Usds, Usds) else OrgNames(org, ToLower(org))
  {
    var url := scheme + host + Slash + (org + rest);
    StripPath(scheme, host, org, rest);
    assert Segment(StripTrailingSlash(StripOrgs(StripHost(url)))) == org;
  }

  lemma StripPath(scheme: string, host: string, org: string, rest: string)
    requires scheme == Http || scheme == Https
    requires host != [] && '/' !in host
    requires org != [] && '/' !in org && org != "orgs"
    requires rest == [] || rest[0] == '/'
    ensures Segment(StripTrailingSlash(StripOrgs(StripHost(scheme + host + Slash + (org + rest))))) == org
  {
    StripHostOf(scheme, host, org + rest);
    NotOrgsPrefixed(org, rest);
    SegmentOfPath(org, rest);
  }

  /** After the trailing slash is dropped, `<org>` and a path still segment to `<org>`. */
  lemma SegmentOfPath(org: string, rest: string)
    requires org != [] && '/' !in org
    requires rest == [] || rest[0] == '/'
    ensures Segment(StripTrailingSlash(org + rest)) == org
  {
    var t := StripTrailingSlash(org + rest);
    TrailingSlashOfPath(org, rest);
    assert t == org + t[|org|..];
    FirstPartIs(org, t[|org|..]);
  }

  /** A path starting with a slash-free `<org>` other than `orgs` keeps no `orgs/`. */
  lemma NotOrgsPrefixed(org: string, rest: string)
    requires org != [] && '/' !in org && org != "orgs"
    requires rest == [] || rest[0] == '/'
    ensures StripOrgs(org + rest) == org + rest
  {
    var s := org + rest;
    if |s| >= |OrgsPrefix| {
      if |org| > 4 {
        assert s[..5][4] == org[4] != OrgsPrefix[4];
      } else if |org| < 4 {
        assert s[..5][|org|] == rest[0] != OrgsPrefix[|org|];
      } else {
        assert s[..5][..4] == org != OrgsPrefix[..4];
      }
    }
  }

  /** Dropping a trailing slash from `<org>` and a path leaves `<org>` and a path. */
  lemma TrailingSlashOfPath(org: string, rest: string)
    requires org != [] && '/' !in org
    requires rest == [] || rest[0] == '/'
    ensures var t := StripTrailingSlash(org + rest);
      |org| <= |t| && t[..|org|] == org && (t[|org|..] == [] || t[|org|..][0] == '/')
  {
    var s := org + rest;
    if rest != [] && s[|s| - 1] == '/' {
      assert s[..|s| - 1] == org + rest[..|rest| - 1];
    } else {
      assert s[..|org|] == org;
    }
  }

  /** The first part of `<org>` and a path is `<org>`, so it is the segment. */
  lemma FirstPartIs(org: string, rest: string)
    requires org != [] && '/' !in org
    requires rest == [] || rest[0] == '/'
    ensures Segment(org + rest) == org
  {
    if rest == [] {
      assert org + rest == org;
      NoCharNoFind(org, '/');
    } else {
      assert org + rest == org + ['/'] + rest[1..];
      FirstCharFind(org, '/', rest[1..]);
      assert Split(org + rest, Slash)[0] == org;
    }
  }
}
