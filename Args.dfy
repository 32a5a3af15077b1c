/** `normalizeDashes` and `parseArgs` of gh-summary.mjs and gh-org-summary.mjs:
    dash look-alikes in each token become `-`, then every `--key` token binds
    `key` to the token after it, or to `true` when there is no usable value. */
module Args {
  import opened Strings

  /** A value of the `args` object: `true`, or the string that followed the key. */
  datatype ArgValue = Flag | Text(text: string)

  type ArgMap = map<string, ArgValue>

  const KeyPrefix: string := "--"

  /** U+2010 to U+2015 (hyphens and dashes), U+2212 (minus sign), U+FE58 and
      U+FE63 (small em dash and small hyphen-minus) and U+FF0D (full-width
      hyphen-minus). */
  predicate UnicodeDash(c: char) {
    '\U{2010}' <= c <= '\U{2015}' || c == '\U{2212}' || c == '\U{FE58}' || c == '\U{FE63}' || c == '\U{FF0D}'
  }

  /** The class the org script is written with. Its source bytes are the raw
      characters U+0010 `-` U+0015 U+0012 U+0015 `8` U+0016 `3` U+0010 `D`: the
      range U+0010 to U+0015, then U+0012, U+0015, `8`, U+0016, `3`, U+0010 and
      `D`. So it holds the control characters U+0010 to U+0016 and the characters
      `8`, `3` and `D`; the `-` is the range operator and not a member. */
  predicate WrittenOrgClass(c: char) {
    '\U{0010}' <= c <= '\U{0016}' || c == '8' || c == '3' || c == 'D'
  }

  /** `token.replace(/[class]/g, '-')`. */
  function Normalize(dash: char -> bool, token: string): (r: string)
    ensures |r| == |token|
    ensures forall i :: 0 <= i < |token| ==> r[i] == if dash(token[i]) then '-' else token[i]
  {
    if token == [] then [] else [if dash(token[0]) then '-' else token[0]] + Normalize(dash, token[1..])
  }

  /** `normalizeDashes` of gh-summary.mjs, and of the org script as intended: no
      dash look-alike survives, every other character stays where it was, and a
      character becomes `-` exactly when it was `-` or a look-alike. */
  function NormalizeDashes(token: string): (r: string)
    ensures |r| == |token|
    ensures forall i :: 0 <= i < |r| ==> !UnicodeDash(r[i])
    ensures forall i :: 0 <= i < |token| && !UnicodeDash(token[i]) ==> r[i] == token[i]
    ensures forall i :: 0 <= i < |token| ==> (r[i] == '-' <==> token[i] == '-' || UnicodeDash(token[i]))
  {
    Normalize(UnicodeDash, token)
  }

  /** `normalizeDashes` of gh-org-summary.mjs as written: the digits `3` and `8`,
      the letter `D` and the controls U+0010 to U+0016 all become `-`, and no
      character of the class survives. */
  function OrgNormalizeAsWritten(token: string): (r: string)
    ensures |r| == |token|
    ensures forall i :: 0 <= i < |r| ==> !WrittenOrgClass(r[i])
    ensures forall i :: 0 <= i < |token| && token[i] in "38D" ==> r[i] == '-'
    ensures forall i :: 0 <= i < |token| ==> (r[i] == '-' <==> token[i] == '-' || WrittenOrgClass(token[i]))
  {
    Normalize(WrittenOrgClass, token)
  }

  /** A second pass changes nothing. */
  lemma NormalizeIdempotent(dash: char -> bool, token: string)
    ensures Normalize(dash, Normalize(dash, token)) == Normalize(dash, token)
  {
    var r := Normalize(dash, token);
    assert forall i :: 0 <= i < |r| ==> Normalize(dash, r)[i] == r[i];
  }

  /** `argv.map(normalizeDashes)`. */
  function NormalizeAll(dash: char -> bool, argv: seq<string>): (a: seq<string>)
    ensures |a| == |argv| && forall i :: 0 <= i < |argv| ==> a[i] == Normalize(dash, argv[i])
  {
    if argv == [] then [] else [Normalize(dash, argv[0])] + NormalizeAll(dash, argv[1..])
  }

  /** `!next || next.startsWith('-')` fails: the token after position `p` is a value. */
  predicate ValueAfter(a: seq<string>, p: nat) {
    p + 1 < |a| && a[p + 1] != "" && a[p + 1][0] != '-'
  }

  /** What the key token at position `p` binds. */
  function ValueAt(a: seq<string>, p: nat): ArgValue {
    if ValueAfter(a, p) then Text(a[p + 1]) else Flag
  }

  /** The bindings of the first `n` tokens, taking every `--` token as a key. A
      value that is consumed never starts with `-`, so no token that could be a
      key is ever consumed: this is what the loop computes. */
  function Bindings(a: seq<string>, n: nat): ArgMap
    requires n <= |a|
  {
    if n == 0 then map[]
    else
      var m := Bindings(a, n - 1);
      if StartsWith(a[n - 1], KeyPrefix) then m[a[n - 1][2..] := ValueAt(a, n - 1)] else m
  }

  /** `parseArgs(argv)` with the given dash class. */
  method ParseArgs(dash: char -> bool, argv: seq<string>) returns (args: ArgMap)
    ensures args == Bindings(NormalizeAll(dash, argv), |argv|)
  {
    args := map[];
    var a := NormalizeAll(dash, argv);
    var i := 0;
    while i < |a|
      invariant i <= |a|
      invariant args == Bindings(a, i)
    {
      var tok := a[i];
      ghost var next := Bindings(a, i + 1);
      if StartsWith(tok, KeyPrefix) {
        var key := tok[2..];
        assert next == args[key := ValueAt(a, i)];
        if i + 1 >= |a| || a[i + 1] == "" || a[i + 1][0] == '-' {
          args := args[key := Flag];
        } else {
          args := args[key := Text(a[i + 1])];
          BindingsSkip(a, i + 1);
          i := i + 1;
        }
      } else {
        assert next == args;
      }
      i := i + 1;
    }
  }

  /** A token that does not start with `-`, once consumed as a value, would not
      have bound anything as a key either. */
  lemma BindingsSkip(a: seq<string>, n: nat)
    requires n < |a| && a[n] != "" && a[n][0] != '-'
    ensures Bindings(a, n + 1) == Bindings(a, n)
  {
  }

  /** The arguments gh-summary.mjs sees, and gh-org-summary.mjs as intended. */
  function ScriptArgs(argv: seq<string>): ArgMap {
    var a := NormalizeAll(UnicodeDash, argv);
    Bindings(a, |a|)
  }

  /** The arguments gh-org-summary.mjs sees as written. */
  function OrgArgsAsWritten(argv: seq<string>): ArgMap {
    var a := NormalizeAll(WrittenOrgClass, argv);
    Bindings(a, |a|)
  }

  // ---------------------------------------------------------------------------
  // What the bindings hold

  /** A key is bound exactly when some token is `--key`; it is bound to the value
      of the last such token: the next token when that is non-empty and does not
      start with `-`, `true` otherwise. Tokens not starting with `--` bind nothing. */
  lemma BindingsMeaning(a: seq<string>, n: nat, k: string)
    requires n <= |a|
    ensures k in Bindings(a, n) <==> exists p :: 0 <= p < n && a[p] == KeyPrefix + k
    ensures forall p :: 0 <= p < n && a[p] == KeyPrefix + k && (forall q :: p < q < n ==> a[q] != KeyPrefix + k) ==>
              k in Bindings(a, n) && Bindings(a, n)[k] == ValueAt(a, p)
  {
    BindingsKeys(a, n, k);
    forall p | 0 <= p < n && a[p] == KeyPrefix + k && (forall q :: p < q < n ==> a[q] != KeyPrefix + k)
      ensures k in Bindings(a, n) && Bindings(a, n)[k] == ValueAt(a, p)
    {
      BindingsLast(a, n, k, p);
    }
  }

  /** A token binds `k` exactly when it is `--k`. */
  lemma KeyToken(t: string, k: string)
    ensures StartsWith(t, KeyPrefix) && t[2..] == k <==> t == KeyPrefix + k
  {
    if t == KeyPrefix + k {
      assert t[..2] == KeyPrefix && t[2..] == k;
    }
    if StartsWith(t, KeyPrefix) && t[2..] == k {
      assert t == t[..2] + t[2..];
    }
  }

  lemma {:induction false} BindingsKeys(a: seq<string>, n: nat, k: string)
    requires n <= |a|
    ensures k in Bindings(a, n) <==> exists p :: 0 <= p < n && a[p] == KeyPrefix + k
  {
    if n > 0 {
      BindingsKeys(a, n - 1, k);
      KeyToken(a[n - 1], k);
      if exists p :: 0 <= p < n && a[p] == KeyPrefix + k {
        var p :| 0 <= p < n && a[p] == KeyPrefix + k;
        if p < n - 1 {
          assert k in Bindings(a, n - 1);
        }
      }
    }
  }

  lemma {:induction false} BindingsLast(a: seq<string>, n: nat, k: string, p: nat)
    requires p < n <= |a| && a[p] == KeyPrefix + k
    requires forall q :: p < q < n ==> a[q] != KeyPrefix + k
    ensures k in Bindings(a, n) && Bindings(a, n)[k] == ValueAt(a, p)
  {
    KeyToken(a[n - 1], k);
    if p < n - 1 {
      BindingsLast(a, n - 1, k, p);
    }
  }

  // ---------------------------------------------------------------------------
  // The org script's character class

  /** A pair `--key value` binds `key` to the value with its dash look-alikes
      replaced, whenever the value is non-empty and starts with neither `-` nor a
      look-alike. */
  lemma {:induction false} PairBindsValue(key: string, v: string)
    requires forall i :: 0 <= i < |key| ==> !UnicodeDash(key[i])
    requires v != [] && v[0] != '-' && !UnicodeDash(v[0])
    ensures ScriptArgs([KeyPrefix + key, v]) == map[key := Text(NormalizeDashes(v))]
  {
    var a := NormalizeAll(UnicodeDash, [KeyPrefix + key, v]);
    assert a[0] == KeyPrefix + key;
    assert a[0][2..] == key;
    assert Bindings(a, 1) == map[key := Text(a[1])];
    assert !StartsWith(a[1], KeyPrefix) by {
      assert a[1][0] == v[0];
    }
  }

  /** As written, a value that starts with `8`, `3`, `D` or a control character
      U+0010 to U+0016 has that character turned
      into `-` and is then taken for an option: the key becomes `true` (and the
      value itself binds a key of its own when it turned into `--...`). */
  lemma {:induction false} OrgPairDropsValue(key: string, v: string)
    requires forall i :: 0 <= i < |key| ==> !WrittenOrgClass(key[i])
    requires v != [] && WrittenOrgClass(v[0])
    ensures key in OrgArgsAsWritten([KeyPrefix + key, v]) && OrgArgsAsWritten([KeyPrefix + key, v])[key] == Flag
  {
    var a := NormalizeAll(WrittenOrgClass, [KeyPrefix + key, v]);
    assert a[0] == KeyPrefix + key;
    assert a[0][2..] == key;
    assert a[1][0] == '-';
    assert Bindings(a, 1) == map[key := Flag];
    assert ValueAt(a, 1) == Flag;
  }

  /** `--days 30`: as written the org script reads `days` as `true`, and so looks
      back one day. */
  lemma OrgDaysCounterexample()
    ensures OrgArgsAsWritten(["--days", "30"]) == map["days" := Flag]
  {
    var a := NormalizeAll(WrittenOrgClass, ["--days", "30"]);
    assert a[1] == "-0" by {
      assert a[1] == Normalize(WrittenOrgClass, "30");
    }
    assert a[0] == "--days" by {
      assert a[0] == Normalize(WrittenOrgClass, "--days");
    }
    assert !StartsWith(a[1], KeyPrefix);
    assert a[0][2..] == "days";
    assert Bindings(a, 1) == map["days" := Flag];
  }

  /** With the intended class it reads `"30"`. */
  lemma OrgDaysIntended()
    ensures ScriptArgs(["--days", "30"]) == map["days" := Text("30")]
  {
    assert "--days" == KeyPrefix + "days";
    PairBindsValue("days", "30");
    assert NormalizeDashes("30") == "30";
  }

  /** A value that starts with the control character U+0013 becomes `-x` as
      written, so `org` reads `true`. */
  lemma OrgControlCounterexample()
    ensures OrgArgsAsWritten(["--org", "\U{0013}x"]) == map["org" := Flag]
  {
    var a := NormalizeAll(WrittenOrgClass, ["--org", "\U{0013}x"]);
    assert a[1] == "-x" by {
      assert a[1] == Normalize(WrittenOrgClass, "\U{0013}x");
    }
    assert a[0] == "--org" by {
      assert a[0] == Normalize(WrittenOrgClass, "--org");
    }
    assert !StartsWith(a[1], KeyPrefix);
    assert a[0][2..] == "org";
    assert Bindings(a, 1) == map["org" := Flag];
  }
}
