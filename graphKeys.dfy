// ParsedKey of rmadmin/GraphModel.cpp: the classification of configuration
// keys under sites/ by the anchored regular expression
//   ^sites/(?<site>[^/]+)/(workers/(?<program>.+)/(?<function>[^/]+)/
//     (?<function_property>worker|stats/runtime|archives/(...)|
//      instances/(?<signature>[^/]+)/(?<instance_property>[^/]+))
//   |(?<site_property>is_master))$
// with the matcher's own rules: [^/]+ stops at the next slash, .+ is greedy
// and stops at a newline, $ also matches before a final newline, and the
// alternatives are tried in order.

module GraphKeys {
  import opened Options

  /** The captures kept by ParsedKey; empty strings stand for the groups
      that did not take part in the match. */
  datatype ParsedKey = ParsedKey(site: string, program: string, func: string,
                                 property: string, signature: string)

  /** The function properties of fixed spelling. */
  const FixedProps: seq<string> := ["worker", "stats/runtime", "archives/times", "archives/num_files",
                                    "archives/current_size", "archives/alloc_size"]

  /** The first index of c in s, if any. */
  function FirstIndex(s: string, c: char): (r: Option<nat>)
    ensures r.Some? ==> r.value < |s| && s[r.value] == c && c !in s[..r.value]
    ensures r.None? ==> c !in s
  {
    if s == [] then None
    else if s[0] == c then Some(0)
    else
      match FirstIndex(s[1..], c)
      case None => None
      case Some(i) =>
        assert s[..i + 1] == [s[0]] + s[1..][..i];
        Some(i + 1)
  }

  /** The text q matched by the function_property group and $: a fixed
      property, alone or before a final newline, or instances/<sig>/<p>
      where p runs to the end of the key, a newline included. */
  function PropMatch(q: string): Option<string>
  {
    if q in FixedProps then Some(q)
    else if |q| > 0 && q[|q| - 1] == '\n' && q[..|q| - 1] in FixedProps then Some(q[..|q| - 1])
    else if |q| >= 10 && q[..10] == "instances/" then
      var rest := q[10..];
      match FirstIndex(rest, '/')
      case None => None
      case Some(m) =>
        if m >= 1 && |rest| > m + 1 && '/' !in rest[m + 1..] then Some(q) else None
    else None
  }

  /** What follows the slash after the program: the function, a slash and
      the property. */
  function RestMatch(x: string): Option<(string, string)>
  {
    match FirstIndex(x, '/')
    case None => None
    case Some(m) =>
      if m == 0 then None
      else
        match PropMatch(x[m + 1..])
        case None => None
        case Some(prop) => Some((x[..m], prop))
  }

  /** The greedy program group: the split points of r are tried from the
      one at index i down, the program taking r[..i]. */
  function SplitFrom(r: string, i: int): Option<(string, string, string)>
    decreases i
  {
    if i <= 0 then None
    else if SplitsAt(r, i) then
      var fp := RestMatch(r[i + 1..]).value;
      Some((r[..i], fp.0, fp.1))
    else SplitFrom(r, i - 1)
  }

  /** The program may end at the slash at i: no newline before it, and the
      rest of the key matches after it. */
  predicate SplitsAt(r: string, i: int)
  {
    0 <= i < |r| && r[i] == '/' && '\n' !in r[..i] && RestMatch(r[i + 1..]).Some?
  }

  /** ParsedKey: None when the key does not match; otherwise the site, the
      program and function (empty for the site property), the property and
      the signature capture. */
  function ParseKey(k: string): Option<ParsedKey>
  {
    if |k| < 6 || k[..6] != "sites/" then None
    else ParseSite(k[6..])
  }

  /** After sites/: the site runs to the next slash and may not be empty. */
  function ParseSite(rest: string): Option<ParsedKey>
  {
    match FirstIndex(rest, '/')
    case None => None
    case Some(j) => if j == 0 then None else ParseAfterSite(rest[..j], rest[j + 1..])
  }

  /** After sites/<site>/: the workers alternative first, then is_master. */
  function ParseAfterSite(site: string, tail: string): Option<ParsedKey>
  {
    if |tail| >= 8 && tail[..8] == "workers/" then
      match SplitFrom(tail[8..], |tail| - 9)
      case None => None
      case Some(pfp) => Some(ParsedKey(site, pfp.0, pfp.1, pfp.2, ""))
    else if tail == "is_master" || tail == "is_master\n" then
      Some(ParsedKey(site, "", "", "is_master", ""))
    else None
  }

  // --- the key forms, stated directly ------------------------------------

  /** A property a function key may end with, and the end of the key after
      it: a fixed property may be followed by a final newline, an instance
      property runs to the very end. */
  ghost predicate PropForm(prop: string, tail: string)
  {
    || (prop in FixedProps && (tail == "" || tail == "\n"))
    || (tail == "" && exists sig, p :: IsInstanceProp(prop, sig, p))
  }

  predicate IsInstanceProp(prop: string, sig: string, p: string)
  {
    && prop == "instances/" + sig + "/" + p
    && sig != [] && p != [] && '/' !in sig && '/' !in p
  }

  /** sites/<site>/workers/<program>/<function>/<prop>: the site and the
      function hold no slash, the program no newline. */
  ghost predicate FunctionKey(k: string, site: string, program: string, func: string, prop: string)
  {
    exists tail :: FunctionKeyWith(k, site, program, func, prop, tail)
  }

  ghost predicate FunctionKeyWith(k: string, site: string, program: string, func: string, prop: string, tail: string)
  {
    && k == "sites/" + site + "/workers/" + program + "/" + func + "/" + prop + tail
    && site != [] && '/' !in site
    && program != [] && '\n' !in program
    && func != [] && '/' !in func
    && PropForm(prop, tail)
  }

  /** sites/<site>/is_master, perhaps before a final newline. */
  predicate SiteKey(k: string, site: string)
  {
    && (k == "sites/" + site + "/is_master" || k == "sites/" + site + "/is_master\n")
    && site != [] && '/' !in site
  }

  // --- what the parse promises ---------------------------------------------

  /** A key whose site part is site parses as what follows it. */
  lemma SiteSplit(k: string, site: string, t: string)
    requires site != [] && '/' !in site && k == "sites/" + site + "/" + t
    ensures ParseKey(k) == ParseAfterSite(site, t)
  {
    assert k == "sites/" + (site + ("/" + t));
    assert k[..6] == "sites/";
    var rest := k[6..];
    assert rest == site + ("/" + t);
    FirstOfPrefix(site, "/" + t);
    assert rest[..|site|] == site;
    assert rest[|site| + 1..] == t;
  }

  /** A key that parses has a site part. */
  lemma SiteSplitOf(k: string) returns (site: string, t: string)
    requires ParseKey(k).Some?
    ensures site != [] && '/' !in site && k == "sites/" + site + "/" + t
    ensures ParseKey(k) == ParseAfterSite(site, t)
  {
    var rest := k[6..];
    assert ParseKey(k) == ParseSite(rest);
    var j := FirstIndex(rest, '/').value;
    site, t := rest[..j], rest[j + 1..];
    ParseSiteIs(rest, j);
    SiteText(k, j);
  }

  /** What ParseSite parses when the first slash is at j. */
  lemma ParseSiteIs(rest: string, j: nat)
    requires FirstIndex(rest, '/') == Some(j) && j != 0
    ensures ParseSite(rest) == ParseAfterSite(rest[..j], rest[j + 1..])
  {
  }

  /** A key cut after sites/ and at the slash j further on. */
  lemma SiteText(k: string, j: nat)
    requires |k| >= 6 && k[..6] == "sites/" && j < |k[6..]| && k[6..][j] == '/'
    ensures k == "sites/" + k[6..][..j] + "/" + k[6..][j + 1..]
  {
    var rest := k[6..];
    assert rest == rest[..j] + "/" + rest[j + 1..];
    assert k == "sites/" + rest;
    assert "sites/" + (rest[..j] + "/" + rest[j + 1..]) == "sites/" + rest[..j] + "/" + rest[j + 1..];
  }

  /** A key that parses is of one of the two forms with the captured parts;
      the signature capture is always empty, since the group holding it sits
      inside function_property, which always captures first. */
  lemma ParseSound(k: string)
    requires ParseKey(k).Some?
    ensures var pk := ParseKey(k).value;
      && pk.signature == ""
      && pk.site != []
      && ((pk.program == "" && pk.func == "" && pk.property == "is_master" && SiteKey(k, pk.site))
          || (pk.program != "" && FunctionKey(k, pk.site, pk.program, pk.func, pk.property)))
  {
    var site, tail := SiteSplitOf(k);
    var pk := AfterSiteSound(k, site, tail);
  }

  /** What follows sites/<site>/ parses as one of the two forms. */
  lemma AfterSiteSound(k: string, site: string, tail: string) returns (pk: ParsedKey)
    requires site != [] && '/' !in site && k == "sites/" + site + "/" + tail
    requires ParseAfterSite(site, tail).Some?
    ensures ParseAfterSite(site, tail) == Some(pk)
    ensures && pk.signature == ""
      && pk.site == site
      && ((pk.program == "" && pk.func == "" && pk.property == "is_master" && SiteKey(k, pk.site))
          || (pk.program != "" && FunctionKey(k, pk.site, pk.program, pk.func, pk.property)))
  {
    if |tail| >= 8 && tail[..8] == "workers/" {
      var r := tail[8..];
      assert tail == "workers/" + r;
      pk := WorkersSound(k, site, r);
    } else {
      pk := MasterSound(k, site, tail);
    }
  }



  /** The is_master alternative. */
  lemma MasterSound(k: string, site: string, tail: string) returns (pk: ParsedKey)
    requires site != [] && '/' !in site && k == "sites/" + site + "/" + tail
    requires !(|tail| >= 8 && tail[..8] == "workers/") && ParseAfterSite(site, tail).Some?
    ensures ParseAfterSite(site, tail) == Some(pk)
    ensures pk == ParsedKey(site, "", "", "is_master", "") && SiteKey(k, pk.site)
  {
    pk := ParsedKey(site, "", "", "is_master", "");
    MasterText(site);
  }

  /** The workers alternative: what the split captures are the parts of a
      function key. */
  lemma WorkersSound(k: string, site: string, r: string) returns (pk: ParsedKey)
    requires site != [] && '/' !in site && k == "sites/" + site + "/" + ("workers/" + r)
    requires SplitFrom(r, |r| - 1).Some?
    ensures ParseAfterSite(site, "workers/" + r) == Some(pk)
    ensures pk.site == site && pk.signature == "" && pk.program != ""
    ensures FunctionKey(k, site, pk.program, pk.func, pk.property)
  {
    var pfp := SplitFrom(r, |r| - 1).value;
    pk := ParsedKey(site, pfp.0, pfp.1, pfp.2, "");
    WorkersParse(site, r);
    WorkersForm(k, site, r);
  }

  /** After workers/, the parse is the split of the rest. */
  lemma WorkersParse(site: string, r: string)
    requires SplitFrom(r, |r| - 1).Some?
    ensures var pfp := SplitFrom(r, |r| - 1).value;
      ParseAfterSite(site, "workers/" + r) == Some(ParsedKey(site, pfp.0, pfp.1, pfp.2, ""))
  {
    var tail := "workers/" + r;
    assert tail[..8] == "workers/";
    assert tail[8..] == r;
    assert |tail| - 9 == |r| - 1;
    var pfp := SplitFrom(r, |r| - 1).value;
    assert ParseAfterSite(site, tail) == Some(ParsedKey(site, pfp.0, pfp.1, pfp.2, ""));
  }

  /** The parts the split captures are those of a function key. */
  lemma WorkersForm(k: string, site: string, r: string)
    requires site != [] && '/' !in site && k == "sites/" + site + "/" + ("workers/" + r)
    requires SplitFrom(r, |r| - 1).Some?
    ensures var pfp := SplitFrom(r, |r| - 1).value;
      pfp.0 != "" && FunctionKey(k, site, pfp.0, pfp.1, pfp.2)
  {
    var pfp := SplitFrom(r, |r| - 1).value;
    var prog, tailProp := SplitSound(r, |r| - 1);
    KeyText(site, prog, pfp.1, pfp.2, tailProp);
    assert FunctionKeyWith(k, site, prog, pfp.1, pfp.2, tailProp);
  }



  /** The split SplitFrom finds is r = program / function / property + tail
      with a property form. */
  lemma {:induction false} SplitSound(r: string, i: int) returns (prog: string, tail: string)
    requires SplitFrom(r, i).Some?
    ensures var pfp := SplitFrom(r, i).value;
      && prog == pfp.0
      && r == pfp.0 + "/" + pfp.1 + "/" + pfp.2 + tail
      && pfp.0 != [] && '\n' !in pfp.0
      && pfp.1 != [] && '/' !in pfp.1
      && PropForm(pfp.2, tail)
    decreases i
  {
    if SplitsAt(r, i) {
      var fp := RestMatch(r[i + 1..]).value;
      assert SplitFrom(r, i) == Some((r[..i], fp.0, fp.1));
      prog := r[..i];
      tail := SplitHere(r, i);
    } else {
      assert SplitFrom(r, i) == SplitFrom(r, i - 1);
      prog, tail := SplitSound(r, i - 1);
    }
  }

  /** A split at slash i is r = r[..i] / function / property + tail. */
  lemma SplitHere(r: string, i: int) returns (tail: string)
    requires 0 < i < |r| && r[i] == '/' && RestMatch(r[i + 1..]).Some?
    ensures var fp := RestMatch(r[i + 1..]).value;
      && r == r[..i] + "/" + fp.0 + "/" + fp.1 + tail
      && fp.0 != [] && '/' !in fp.0
      && PropForm(fp.1, tail)
  {
    var x := r[i + 1..];
    tail := RestSound(x);
    var fp := RestMatch(x).value;
    assert r == r[..i] + "/" + x;
    SlashJoin(r[..i], fp.0, fp.1, tail);
  }

  lemma SlashJoin(a: string, b: string, c: string, d: string)
    ensures a + "/" + (b + "/" + c + d) == a + "/" + b + "/" + c + d
  {
  }

  /** What RestMatch captures is x = function / property + tail. */
  lemma RestSound(x: string) returns (tail: string)
    requires RestMatch(x).Some?
    ensures var fp := RestMatch(x).value;
      && x == fp.0 + "/" + fp.1 + tail
      && fp.0 != [] && '/' !in fp.0
      && PropForm(fp.1, tail)
  {
    var m := FirstIndex(x, '/').value;
    var q := x[m + 1..];
    var prop := PropMatch(q).value;
    tail := q[|prop|..];
    PropSound(q);
    RestMatchIs(x, m);
    RestSplitText(x, m, prop, tail);
  }

  /** What RestMatch captures when the first slash is at m. */
  lemma RestMatchIs(x: string, m: nat)
    requires FirstIndex(x, '/') == Some(m) && m != 0 && PropMatch(x[m + 1..]).Some?
    ensures RestMatch(x) == Some((x[..m], PropMatch(x[m + 1..]).value))
  {
  }

  /** x cut at the slash at m, the rest being prop + tail. */
  lemma RestSplitText(x: string, m: nat, prop: string, tail: string)
    requires m < |x| && x[m] == '/' && |prop| <= |x[m + 1..]|
    requires x[m + 1..][..|prop|] == prop && tail == x[m + 1..][|prop|..]
    ensures x == x[..m] + "/" + prop + tail
  {
    var q := x[m + 1..];
    assert q == prop + tail;
    assert x == x[..m] + "/" + q;
    PropAppend(x[..m], prop, tail);
  }

  /** The property and its tail regrouped after the function. */
  lemma PropAppend(f: string, prop: string, tail: string)
    ensures f + "/" + (prop + tail) == f + "/" + prop + tail
  {
  }

  /** The property PropMatch captures and what follows it form a property
      form. */
  lemma PropSound(q: string)
    requires PropMatch(q).Some?
    ensures |PropMatch(q).value| <= |q| && q[..|PropMatch(q).value|] == PropMatch(q).value
    ensures PropForm(PropMatch(q).value, q[|PropMatch(q).value|..])
  {
    if q in FixedProps {
    } else if |q| > 0 && q[|q| - 1] == '\n' && q[..|q| - 1] in FixedProps {
      assert q[|q| - 1..] == "\n";
    } else {
      var rest := q[10..];
      var m := FirstIndex(rest, '/').value;
      var sig, p := rest[..m], rest[m + 1..];
      assert q == "instances/" + sig + "/" + p;
      assert IsInstanceProp(q, sig, p);
      assert q[|q|..] == "";
    }
  }

  /** A site key parses to its site and the is_master property. */
  lemma ParseSiteKey(k: string, site: string)
    requires SiteKey(k, site)
    ensures ParseKey(k) == Some(ParsedKey(site, "", "", "is_master", ""))
  {
    var t := if k == "sites/" + site + "/is_master" then "is_master" else "is_master\n";
    SiteSplit(k, site, t);
    assert t[..8][0] != "workers/"[0];
  }

  /** The first slash after a slash-free prefix is the one right after it. */
  lemma FirstOfPrefix(a: string, b: string)
    requires '/' !in a && b != [] && b[0] == '/'
    ensures FirstIndex(a + b, '/') == Some(|a|)
  {
    assert (a + b)[|a|] == '/';
  }

  /** Every function key parses, to its own site and to a program at least
      as long as its own: the greedy program group takes the longest program
      for which the rest of the key still matches. */
  lemma ParseComplete(k: string, site: string, program: string, func: string, prop: string)
    requires FunctionKey(k, site, program, func, prop)
    ensures ParseKey(k).Some?
    ensures ParseKey(k).value.site == site
    ensures |ParseKey(k).value.program| >= |program|
  {
    var tail :| FunctionKeyWith(k, site, program, func, prop, tail);
    var x := func + "/" + prop + tail;
    var r := program + "/" + func + "/" + prop + tail;
    KeyText(site, program, func, prop, tail);
    SiteSplit(k, site, "workers/" + r);
    RestComplete(func, prop, tail);
    RestText(program, func, prop, tail);
    ProgramSplit(program, x, r);
    WorkersTail(site, r);
    assert ParseKey(k) == Some(ParsedKey(site, SplitFrom(r, |r| - 1).value.0, SplitFrom(r, |r| - 1).value.1,
                                         SplitFrom(r, |r| - 1).value.2, ""));
  }

  /** A program followed by a slash and a matching rest is found by the
      greedy search, or a longer program is. */
  lemma ProgramSplit(program: string, x: string, r: string)
    requires program != [] && '\n' !in program && RestMatch(x).Some? && r == program + ("/" + x)
    ensures SplitFrom(r, |r| - 1).Some? && |SplitFrom(r, |r| - 1).value.0| >= |program|
  {
    SplitPoint(program, x, r);
    SplitComplete(r, |r| - 1, |program|);
  }

  /** After sites/<site>/workers/, the key parses as the greedy search
      over the rest finds. */
  lemma WorkersTail(site: string, r: string)
    ensures SplitFrom(r, |r| - 1).Some? ==>
      ParseAfterSite(site, "workers/" + r)
      == Some(ParsedKey(site, SplitFrom(r, |r| - 1).value.0, SplitFrom(r, |r| - 1).value.1,
                        SplitFrom(r, |r| - 1).value.2, ""))
  {
    var t := "workers/" + r;
    assert t[..8] == "workers/" && t[8..] == r;
  }

  /** The text of a function key, regrouped after its site. */
  lemma KeyText(site: string, program: string, func: string, prop: string, tail: string)
    ensures "sites/" + site + "/workers/" + program + "/" + func + "/" + prop + tail
         == "sites/" + site + "/" + ("workers/" + (program + "/" + func + "/" + prop + tail))
  {
  }

  /** The text after workers/, regrouped after the program. */
  lemma RestText(program: string, func: string, prop: string, tail: string)
    ensures program + "/" + func + "/" + prop + tail == program + ("/" + (func + "/" + prop + tail))
  {
  }

  /** Where a program is followed by a slash. */
  lemma SplitPoint(program: string, x: string, r: string)
    requires r == program + ("/" + x)
    ensures |r| == |program| + 1 + |x|
    ensures r[|program|] == '/' && r[..|program|] == program && r[|program| + 1..] == x
  {
  }

  /** The text of a site key, regrouped after its site. */
  lemma MasterText(site: string)
    ensures "sites/" + site + "/" + "is_master" == "sites/" + site + "/is_master"
    ensures "sites/" + site + "/" + "is_master\n" == "sites/" + site + "/is_master\n"
  {
  }

  /** When the split at i0 matches, the search from any i >= i0 finds a
      split at or after i0. */
  lemma {:induction false} SplitComplete(r: string, i: int, i0: nat)
    requires 1 <= i0 <= i
    requires SplitsAt(r, i0)
    ensures SplitFrom(r, i).Some? && |SplitFrom(r, i).value.0| >= i0
    decreases i
  {
    if SplitsAt(r, i) {
      var fp := RestMatch(r[i + 1..]).value;
      assert SplitFrom(r, i) == Some((r[..i], fp.0, fp.1));
      assert |r[..i]| == i;
    } else {
      assert i != i0;
      assert SplitFrom(r, i) == SplitFrom(r, i - 1);
      SplitComplete(r, i - 1, i0);
    }
  }

  /** function / prop + tail is matched by the rest of the expression. */
  lemma RestComplete(func: string, prop: string, tail: string)
    requires func != [] && '/' !in func && PropForm(prop, tail)
    ensures RestMatch(func + "/" + prop + tail).Some?
  {
    var q := prop + tail;
    var b := "/" + q;
    PropComplete(prop, tail);
    FirstOfPrefix(func, b);
    JoinAt(func, '/', q);
    assert func + "/" + prop + tail == func + b;
    RestMatchAt(func + b, |func|);
  }

  lemma JoinAt(a: string, c: char, q: string)
    ensures a + [c] + q == a + ([c] + q)
    ensures (a + ([c] + q))[|a| + 1..] == q
  {
    assert (a + ([c] + q))[|a| + 1..] == q;
  }

  lemma RestMatchAt(x: string, m: nat)
    requires 0 < m < |x| && FirstIndex(x, '/') == Some(m) && PropMatch(x[m + 1..]).Some?
    ensures RestMatch(x).Some?
  {
  }

  /** A property form is matched by function_property and $. */
  lemma PropComplete(prop: string, tail: string)
    requires PropForm(prop, tail)
    ensures PropMatch(prop + tail).Some?
  {
    if prop in FixedProps && (tail == "" || tail == "\n") {
      FixedPropComplete(prop, tail);
    } else {
      var sig, p :| IsInstanceProp(prop, sig, p);
      InstancePropComplete(prop, sig, p);
      assert prop + tail == prop;
    }
  }

  /** A fixed property, perhaps before a final newline, matches. */
  lemma FixedPropComplete(prop: string, tail: string)
    requires prop in FixedProps && (tail == "" || tail == "\n")
    ensures PropMatch(prop + tail).Some?
  {
    var q := prop + tail;
    if tail == "\n" {
      assert q[..|q| - 1] == prop;
    } else {
      assert q == prop;
    }
  }

  /** An instance property matches. */
  lemma InstancePropComplete(q: string, sig: string, p: string)
    requires IsInstanceProp(q, sig, p)
    ensures PropMatch(q).Some?
  {
    assert q[..10] == "instances/";
    InstanceNotFixed(q);
    var rest := q[10..];
    assert rest == sig + ("/" + p);
    FirstOfPrefix(sig, "/" + p);
    assert rest[|sig| + 1..] == p;
  }

  /** No fixed property starts with instances/, with or without a final
      newline. */
  lemma InstanceNotFixed(q: string)
    requires |q| >= 10 && q[..10] == "instances/"
    ensures q !in FixedProps
    ensures |q| > 0 && q[|q| - 1] == '\n' ==> q[..|q| - 1] !in FixedProps
  {
    StartsNotFixed(q);
    if |q| > 0 && q[|q| - 1] == '\n' {
      assert q[9] == '/';
      StartsNotFixed(q[..|q| - 1]);
    }
  }

  /** Every fixed property starts with w, s or a. */
  lemma StartsNotFixed(f: string)
    requires f != [] && f[0] == 'i'
    ensures f !in FixedProps
  {
    assert forall g :: g in FixedProps ==> g[0] != 'i';
  }



}
