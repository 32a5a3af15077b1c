/** `parseLinkHeader`, the same in the three Node scripts: the subset of the HTTP
    `Link` header (section 3 of RFC 8288) in which `rel` is the first parameter
    and is quoted, read into a map from relation name to target URL. */
module LinkHeader {
  import opened Wrappers
  import opened Strings

  /** One part matched against `/^<([^>]+)>;\s*rel="([^"]+)"/`: the pair (rel, url). */
  function MatchPart(part: string): (r: Option<(string, string)>)
    ensures r.Some? ==> r.value.0 != "" && r.value.1 != ""
    ensures r.Some? ==> '"' !in r.value.0 && '>' !in r.value.1
  {
    if part == [] || part[0] != '<' then None else MatchTarget(part[1..])
  }

  /** `([^>]+)>` and what follows it. */
  function MatchTarget(s: string): (r: Option<(string, string)>)
    ensures r.Some? ==> r.value.0 != "" && r.value.1 != ""
    ensures r.Some? ==> '"' !in r.value.0 && '>' !in r.value.1
  {
    match Find(s, ">")
    case None => None
    case Some(i) =>
      if i == 0 then None
      else
        FindNoEarlier(s, '>', i);
        match MatchParams(s[i + 1..])
        case None => None
        case Some(rel) => Some((rel, s[..i]))
  }

  /** `;\s*rel="([^"]+)"`: the relation name. */
  function MatchParams(rest: string): (r: Option<string>)
    ensures r.Some? ==> r.value != "" && '"' !in r.value
  {
    if rest == [] || rest[0] != ';' then None
    else
      var params := TrimStart(rest[1..]);
      if !StartsWith(params, "rel=\"") then None else MatchQuoted(params[5..])
  }

  /** `([^"]+)"`. */
  function MatchQuoted(quoted: string): (r: Option<string>)
    ensures r.Some? ==> r.value != "" && '"' !in r.value
  {
    match Find(quoted, "\"")
    case None => None
    case Some(j) =>
      if j == 0 then None
      else
        FindNoEarlier(quoted, '"', j);
        Some(quoted[..j])
  }

  lemma FindNoEarlier(s: string, c: char, i: nat)
    requires Find(s, [c]) == Some(i)
    ensures c !in s[..i]
  {
    forall k | 0 <= k < i ensures s[k] != c {
      assert !OccursAt(s, [c], k);
      assert s[k..k + 1] == [s[k]];
    }
  }

  /** Folds the parts left to right; `Object.fromEntries` lets a later name win. */
  function Collect(parts: seq<string>, acc: map<string, string>): map<string, string> {
    if parts == [] then acc else Collect(parts[1..], Absorb(acc, MatchPart(Trim(parts[0]))))
  }

  /** One trimmed part's entry, if it matches; an empty part, dropped by
      `filter(Boolean)`, never matches either. */
  function Absorb(acc: map<string, string>, m: Option<(string, string)>): map<string, string> {
    match m
    case None => acc
    case Some(p) => acc[p.0 := p.1]
  }

  lemma AbsorbFrom(acc: map<string, string>, m: Option<(string, string)>)
    ensures Absorb(acc, m) == acc + Absorb(map[], m)
  {
    match m
    case None =>
      assert acc + map[] == acc;
    case Some(p) =>
      assert acc[p.0 := p.1] == acc + map[p.0 := p.1];
  }

  /** What `/^<([^>]+)>;\s*rel="([^"]+)"/` can capture: a non-empty name without a
      quote, bound to a non-empty URL without `>`. */
  predicate Captured(links: map<string, string>) {
    forall rel :: rel in links ==> rel != "" && '"' !in rel && links[rel] != "" && '>' !in links[rel]
  }

  lemma {:induction false} CollectCaptured(parts: seq<string>, acc: map<string, string>)
    requires Captured(acc)
    ensures Captured(Collect(parts, acc))
    decreases |parts|
  {
    if parts != [] {
      var part := Trim(parts[0]);
      AbsorbCaptured(acc, MatchPart(part));
      CollectCaptured(parts[1..], Absorb(acc, MatchPart(part)));
    }
  }

  lemma AbsorbCaptured(acc: map<string, string>, m: Option<(string, string)>)
    requires Captured(acc)
    requires m.Some? ==> m.value.0 != "" && m.value.1 != "" && '"' !in m.value.0 && '>' !in m.value.1
    ensures Captured(Absorb(acc, m))
  {
  }

  /** `parseLinkHeader(link)`: split on commas, each part trimmed and matched, the
      later of two equal names winning. Every name and URL it holds is one the
      pattern can capture, and a header with no part that matches yields nothing. */
  function ParseLinkHeader(link: string): (r: map<string, string>)
    ensures Captured(r)
    ensures (forall i :: 0 <= i < |Split(link, ",")| ==> MatchPart(Trim(Split(link, ",")[i])).None?) ==> r == map[]
  {
    CollectCaptured(Split(link, ","), map[]);
    CollectNone(Split(link, ","), map[]);
    Collect(Split(link, ","), map[])
  }

  /** Parts that do not match leave the map as it was. */
  lemma {:induction false} CollectNone(parts: seq<string>, acc: map<string, string>)
    ensures (forall i :: 0 <= i < |parts| ==> MatchPart(Trim(parts[i])).None?) ==> Collect(parts, acc) == acc
    decreases |parts|
  {
    if parts != [] {
      CollectNone(parts[1..], Absorb(acc, MatchPart(Trim(parts[0]))));
      if forall i :: 0 <= i < |parts| ==> MatchPart(Trim(parts[i])).None? {
        assert MatchPart(Trim(parts[0])).None?;
        assert forall i :: 0 <= i < |parts[1..]| ==> parts[1..][i] == parts[i + 1];
      }
    }
  }

  /** `!!rel.next`: every matched URL is non-empty, so presence decides. */
  predicate HasNext(link: string) {
    "next" in ParseLinkHeader(link)
  }

  lemma {:induction false} CollectAppend(p1: seq<string>, p2: seq<string>, acc: map<string, string>)
    ensures Collect(p1 + p2, acc) == Collect(p2, Collect(p1, acc))
  {
    if p1 != [] {
      assert (p1 + p2)[1..] == p1[1..] + p2 && (p1 + p2)[0] == p1[0];
      CollectAppend(p1[1..], p2, Absorb(acc, MatchPart(Trim(p1[0]))));
    } else {
      assert p1 + p2 == p2;
    }
  }

  lemma {:induction false} CollectFrom(parts: seq<string>, acc: map<string, string>)
    ensures Collect(parts, acc) == acc + Collect(parts, map[])
  {
    if parts != [] {
      var m := MatchPart(Trim(parts[0]));
      var first := Absorb(map[], m);
      var later := Collect(parts[1..], map[]);
      calc {
        Collect(parts, acc);
        Collect(parts[1..], Absorb(acc, m));
        { CollectFrom(parts[1..], Absorb(acc, m)); }
        Absorb(acc, m) + later;
        { AbsorbFrom(acc, m); }
        (acc + first) + later;
        { MapUnionAssoc(acc, first, later); }
        acc + (first + later);
        { CollectFrom(parts[1..], first); }
        acc + Collect(parts[1..], first);
      }
    }
  }

  lemma MapUnionAssoc(a: map<string, string>, b: map<string, string>, c: map<string, string>)
    ensures (a + b) + c == a + (b + c)
  {
  }

  /** Parts are read independently and a later relation overrides an earlier one:
      the header of two comma-joined halves is the right-biased union of theirs. */
  lemma ParseConcat(a: string, b: string)
    ensures ParseLinkHeader(a + "," + b) == ParseLinkHeader(a) + ParseLinkHeader(b)
  {
    SplitConcat(a, ',', b);
    CollectAppend(Split(a, ","), Split(b, ","), map[]);
    CollectFrom(Split(b, ","), ParseLinkHeader(a));
  }

  /** `split` on a character maps `a + c + b` to the parts of `a` followed by those of `b`. */
  lemma {:induction false} SplitConcat(a: string, c: char, b: string)
    ensures Split(a + [c] + b, [c]) == Split(a, [c]) + Split(b, [c])
    decreases |a|
  {
    var s := a + [c] + b;
    match Find(a, [c])
    case None =>
      NotFoundNotIn(a, c);
      FirstCharFind(a, c, b);
      assert s[..|a|] == a && s[|a| + 1..] == b;
    case Some(i) =>
      FindInPrefix(a, c, b, i);
      assert s[..i] == a[..i];
      assert s[i + 1..] == a[i + 1..] + [c] + b;
      SplitConcat(a[i + 1..], c, b);
  }

  lemma NotFoundNotIn(a: string, c: char)
    requires Find(a, [c]).None?
    ensures c !in a
  {
    forall k | 0 <= k < |a| ensures a[k] != c {
      assert a[k..k + 1] == [a[k]];
      assert !OccursAt(a, [c], k);
    }
  }

  /** The first `c` of `a` is the first of `a + [c] + b`. */
  lemma FindInPrefix(a: string, c: char, b: string, i: nat)
    requires Find(a, [c]) == Some(i)
    ensures Find(a + [c] + b, [c]) == Some(i)
  {
    var s := a + [c] + b;
    assert OccursAt(s, [c], i) by { assert s[i..i + 1] == a[i..i + 1]; }
    forall k | 0 <= k < i ensures !OccursAt(s, [c], k) {
      assert !OccursAt(a, [c], k);
      assert s[k..k + 1] == a[k..k + 1];
    }
  }

  /** The part a server writes for one relation. */
  function RenderPart(rel: string, url: string): string {
    "<" + url + ">; rel=\"" + rel + "\""
  }

  lemma QuotedRendered(rel: string)
    requires rel != "" && '"' !in rel
    ensures MatchQuoted(rel + "\"") == Some(rel)
  {
    FirstCharFind(rel, '"', "");
    assert rel + "\"" + "" == rel + "\"";
    assert (rel + "\"")[..|rel|] == rel;
  }

  lemma ParamsRendered(rel: string)
    requires rel != "" && '"' !in rel
    ensures MatchParams("; rel=\"" + rel + "\"") == Some(rel)
  {
    var params := "rel=\"" + rel + "\"";
    RenderedParamsShape(rel, params);
    TrimStartSpace(' ', params);
    MatchParamsAfter(";" + [' '] + params, params);
    QuotedRendered(rel);
  }

  lemma RenderedParamsShape(rel: string, params: string)
    requires params == "rel=\"" + rel + "\""
    ensures "; rel=\"" + rel + "\"" == ";" + [' '] + params
    ensures (";" + [' '] + params)[1..] == [' '] + params
    ensures TrimStart(params) == params
    ensures StartsWith(params, "rel=\"") && params[5..] == rel + "\""
  {
    assert params[0] == 'r';
    assert params[..5] == "rel=\"";
  }

  /** `;` followed by optional white space and then `params`. */
  lemma MatchParamsAfter(rest: string, params: string)
    requires rest != [] && rest[0] == ';' && TrimStart(rest[1..]) == params
    ensures MatchParams(rest) == if StartsWith(params, "rel=\"") then MatchQuoted(params[5..]) else None
  {
  }

  lemma MatchRendered(rel: string, url: string)
    requires rel != "" && url != "" && '"' !in rel && '>' !in url
    ensures MatchPart(RenderPart(rel, url)) == Some((rel, url))
  {
    var tail := "; rel=\"" + rel + "\"";
    var part := RenderPart(rel, url);
    assert part == "<" + (url + ">" + tail);
    var afterOpen := part[1..];
    assert afterOpen == url + ">" + tail;
    FirstCharFind(url, '>', tail);
    assert afterOpen[..|url|] == url;
    assert afterOpen[|url| + 1..] == tail;
    ParamsRendered(rel);
  }

  /** A part as a server writes it is read back as exactly its one relation. */
  lemma ParseRenderedPart(rel: string, url: string)
    requires rel != "" && url != ""
    requires '"' !in rel && ',' !in rel && '>' !in url && ',' !in url
    ensures ParseLinkHeader(RenderPart(rel, url)) == map[rel := url]
  {
    var part := RenderPart(rel, url);
    assert ',' !in part by {
      assert part == "<" + url + ">; rel=\"" + rel + "\"";
    }
    NoCharNoFind(part, ',');
    assert Split(part, ",") == [part];
    assert Trim(part) == part;
    MatchRendered(rel, url);
    assert Collect([part], map[]) == Collect([], map[rel := url]);
  }

  /** `Object.fromEntries(pairs)`: a later pair overrides an earlier one with the same name. */
  function FromEntries(pairs: seq<(string, string)>): map<string, string> {
    if pairs == [] then map[] else map[pairs[0].0 := pairs[0].1] + FromEntries(pairs[1..])
  }

  /** A whole header as a server writes it: the parts joined by ", ". */
  function RenderLinks(pairs: seq<(string, string)>): string
    requires pairs != []
  {
    if |pairs| == 1 then RenderPart(pairs[0].0, pairs[0].1)
    else RenderPart(pairs[0].0, pairs[0].1) + "," + " " + RenderLinks(pairs[1..])
  }

  predicate Renderable(rel: string, url: string) {
    rel != "" && url != "" && '"' !in rel && ',' !in rel && '>' !in url && ',' !in url
  }

  /** A space before the header does not change what is read from it. */
  lemma ParseLeadingSpace(link: string)
    ensures ParseLinkHeader(" " + link) == ParseLinkHeader(link)
  {
    var parts := Split(link, ",");
    var spaced := Split(" " + link, ",");
    SplitCons(' ', link, ',');
    assert spaced[0] == [' '] + parts[0] && spaced[1..] == parts[1..];
    TrimStartSpace(' ', parts[0]);
    assert Trim(spaced[0]) == Trim(parts[0]);
    calc {
      ParseLinkHeader(" " + link);
      Collect(spaced, map[]);
      Collect(spaced[1..], Absorb(map[], MatchPart(Trim(spaced[0]))));
      Collect(parts[1..], Absorb(map[], MatchPart(Trim(parts[0]))));
      Collect(parts, map[]);
    }
  }

  lemma RenderedStep(pairs: seq<(string, string)>)
    requires |pairs| > 1 && Renderable(pairs[0].0, pairs[0].1)
    requires ParseLinkHeader(RenderLinks(pairs[1..])) == FromEntries(pairs[1..])
    ensures ParseLinkHeader(RenderLinks(pairs)) == FromEntries(pairs)
  {
    ParseRenderedPart(pairs[0].0, pairs[0].1);
    var first := RenderPart(pairs[0].0, pairs[0].1);
    var rest := RenderLinks(pairs[1..]);
    assert RenderLinks(pairs) == first + "," + (" " + rest);
    ParseConcat(first, " " + rest);
    ParseLeadingSpace(rest);
  }

  /** Round trip: reading a header written from name/URL pairs gives `Object.fromEntries` of them. */
  lemma {:induction false} ParseRenderedLinks(pairs: seq<(string, string)>)
    requires pairs != []
    requires forall i :: 0 <= i < |pairs| ==> Renderable(pairs[i].0, pairs[i].1)
    ensures ParseLinkHeader(RenderLinks(pairs)) == FromEntries(pairs)
  {
    if |pairs| == 1 {
      ParseRenderedPart(pairs[0].0, pairs[0].1);
      assert FromEntries(pairs[1..]) == map[];
      assert map[pairs[0].0 := pairs[0].1] + map[] == map[pairs[0].0 := pairs[0].1];
    } else {
      ParseRenderedLinks(pairs[1..]);
      RenderedStep(pairs);
    }
  }
}
