/** CSPUtils.generateCSPHeader: the default directives overlaid with the
    caller's policies as `{...defaults, ...policies}` does, then one part
    per directive with a non-empty array of sources, joined by "; ".
    An object is the sequence of its entries in JavaScript's enumeration
    order: array-index keys ascending, then the other keys in the order
    they were first created. */
module Csp {
  import opened Wrappers
  import opened Text
  import opened Js

  type Entries = seq<(string, Value)>

  function Keys(es: Entries): seq<string>
  {
    seq(|es|, i requires 0 <= i < |es| => es[i].0)
  }

  /** The keys of `es` are pairwise distinct, as an object's are. */
  predicate DistinctKeys(es: Entries)
  {
    forall i, j :: 0 <= i < j < |es| ==> es[i].0 != es[j].0
  }

  /** An array-index key: the canonical decimal form of an integer below 2^32 - 1. */
  predicate IsArrayIndex(k: string)
  {
    |k| > 0 && (forall i :: 0 <= i < |k| ==> IsAsciiDigit(k[i]))
    && (|k| == 1 || k[0] != '0') && DigitsValue(k) < 0xFFFF_FFFF
  }

  function Sources(xs: seq<string>): Value
  {
    Arr(seq(|xs|, i requires 0 <= i < |xs| => Str(xs[i])))
  }

  /** The default directives, in source order. */
  function Defaults(): Entries
  {
    [ ("default-src", Sources(["'self'"])),
      ("script-src", Sources(["'self'", "'unsafe-inline'"])),
      ("style-src", Sources(["'self'", "'unsafe-inline'"])),
      ("img-src", Sources(["'self'", "data:", "https:"])),
      ("font-src", Sources(["'self'"])),
      ("connect-src", Sources(["'self'"])),
      ("frame-src", Sources([])),
      ("object-src", Sources(["'none'"])),
      ("base-uri", Sources(["'self'"])),
      ("form-action", Sources(["'self'"])) ]
  }

  /** The entries of `es` whose keys satisfy `keep`, in order. */
  function Filter(es: Entries, keep: string -> bool): (r: Entries)
    ensures |r| <= |es|
    ensures forall i :: 0 <= i < |r| ==> keep(r[i].0)
  {
    if es == [] then []
    else Filter(es[..|es| - 1], keep) + (if keep(es[|es| - 1].0) then [es[|es| - 1]] else [])
  }

  lemma {:induction false} FilterMember(es: Entries, keep: string -> bool, e: (string, Value))
    ensures e in Filter(es, keep) <==> e in es && keep(e.0)
  {
    if es != [] {
      FilterMember(es[..|es| - 1], keep, e);
      assert es == es[..|es| - 1] + [es[|es| - 1]];
    }
  }

  /** The value of key `k` in `es`, if present. */
  function Lookup(es: Entries, k: string): Option<Value>
  {
    if es == [] then None
    else if es[|es| - 1].0 == k then Some(es[|es| - 1].1)
    else Lookup(es[..|es| - 1], k)
  }

  /** The defaults in their own positions, each value replaced by the
      caller's where the caller gives the same directive. */
  function Overlay(ds: Entries, ps: Entries): (r: Entries)
    ensures |r| == |ds|
    ensures forall i :: 0 <= i < |r| ==> r[i].0 == ds[i].0
  {
    seq(|ds|, i requires 0 <= i < |ds| =>
      var v := Lookup(ps, ds[i].0);
      (ds[i].0, if v.Some? then v.value else ds[i].1))
  }

  /** The directive names of the defaults. */
  predicate IsDefaultDirective(k: string)
  {
    Lookup(Defaults(), k).Some?
  }

  /** A caller's key that `{...defaults, ...policies}` appends after the defaults. */
  predicate IsNewDirective(k: string)
  {
    !IsArrayIndex(k) && !IsDefaultDirective(k)
  }

  /** `{...defaults, ...policies}` in enumeration order: the caller's
      array-index keys (the defaults have none), then the defaults in place,
      then the caller's other new directives in their order. */
  function Merged(ps: Entries): Entries
  {
    var ds := Defaults();
    Filter(ps, IsArrayIndex) + Overlay(ds, ps)
    + Filter(ps, IsNewDirective)
  }

  /** The part a directive contributes: "directive s1 s2 ..." when its
      sources are a non-empty array. */
  function Part(directive: string, sources: Value): Option<string>
  {
    if sources.Arr? && |sources.items| > 0 then Some(directive + " " + JoinValues(sources.items, " "))
    else None
  }

  /** The part of an entry, as a list of zero or one strings. */
  function PartList(e: (string, Value)): seq<string>
  {
    var p := Part(e.0, e.1);
    if p.Some? then [p.value] else []
  }

  /** The parts of `es`, in order. */
  function Parts(es: Entries): seq<string>
  {
    if es == [] then [] else Parts(es[..|es| - 1]) + PartList(es[|es| - 1])
  }

  lemma PartsPrefix(es: Entries, k: nat)
    requires k < |es|
    ensures Parts(es[..k + 1]) == Parts(es[..k]) + PartList(es[k])
  {
    assert es[..k + 1][..k] == es[..k];
  }

  /** CSPUtils.isUrlAllowed: a non-empty string that the URL parser accepts
      and whose host name is among the allowed domains. `hostnameOf` stands
      for `new URL(url).hostname`, None when the constructor throws. */
  predicate IsUrlAllowed(url: Value, allowedDomains: seq<string>, hostnameOf: string -> Option<string>)
  {
    if !Truthy(url) || !url.Str? then false
    else
      match hostnameOf(url.s)
      case None => false
      case Some(host) => host in allowedDomains
  }

  /** With the default empty list of domains no URL is allowed, an allowed
      URL is a non-empty string that parses to a listed host, and adding
      domains never withdraws a permission. */
  lemma UrlAllowedMonotone(url: Value, xs: seq<string>, ys: seq<string>, hostnameOf: string -> Option<string>)
    ensures !IsUrlAllowed(url, [], hostnameOf)
    ensures IsUrlAllowed(url, xs, hostnameOf) ==>
              url.Str? && url.s != "" && hostnameOf(url.s).Some? && hostnameOf(url.s).value in xs
    ensures IsUrlAllowed(url, xs, hostnameOf) ==> IsUrlAllowed(url, xs + ys, hostnameOf)
  {
  }

  /** Only the set of allowed domains matters, not their order or repeats;
      and a URL whose host is listed is allowed. */
  lemma UrlAllowedBySet(url: Value, xs: seq<string>, ys: seq<string>, hostnameOf: string -> Option<string>)
    requires forall d :: d in xs <==> d in ys
    ensures IsUrlAllowed(url, xs, hostnameOf) == IsUrlAllowed(url, ys, hostnameOf)
    ensures url.Str? && url.s != "" && hostnameOf(url.s).Some? && hostnameOf(url.s).value in xs ==>
              IsUrlAllowed(url, ys, hostnameOf)
  {
  }

  /** generateCSPHeader. */
  method GenerateCspHeader(policies: Entries) returns (header: string)
    ensures header == Join(Parts(Merged(policies)), "; ")
  {
    var merged := Merged(policies);
    var policyParts: seq<string> := [];
    for i := 0 to |merged|
      invariant policyParts == Parts(merged[..i])
    {
      var (directive, sources) := merged[i];
      if sources.Arr? && |sources.items| > 0 {
        policyParts := policyParts + [directive + " " + JoinValues(sources.items, " ")];
      }
      PartsPrefix(merged, i);
    }
    assert merged[..|merged|] == merged;
    header := Join(policyParts, "; ");
  }

  lemma {:induction false} LookupAppend(a: Entries, b: Entries, k: string)
    ensures Lookup(a + b, k) == if Lookup(b, k).Some? then Lookup(b, k) else Lookup(a, k)
  {
    if b != [] {
      assert (a + b)[..|a + b| - 1] == a + b[..|b| - 1];
      LookupAppend(a, b[..|b| - 1], k);
    } else {
      assert a + b == a;
    }
  }

  lemma {:induction false} LookupFilter(es: Entries, keep: string -> bool, k: string)
    ensures Lookup(Filter(es, keep), k) == if keep(k) then Lookup(es, k) else None
  {
    if es != [] {
      var init := es[..|es| - 1];
      var last := es[|es| - 1];
      LookupFilter(init, keep, k);
      LookupAppend(Filter(init, keep), if keep(last.0) then [last] else [], k);
    }
  }

  lemma {:induction false} LookupOverlay(ds: Entries, ps: Entries, k: string)
    ensures Lookup(Overlay(ds, ps), k) ==
              if Lookup(ds, k).None? then None
              else if Lookup(ps, k).Some? then Lookup(ps, k) else Lookup(ds, k)
  {
    if ds != [] {
      var init := ds[..|ds| - 1];
      assert Overlay(ds, ps)[..|ds| - 1] == Overlay(init, ps);
      LookupOverlay(init, ps, k);
    }
  }

  lemma {:induction false} LookupFound(es: Entries, k: string)
    ensures Lookup(es, k).Some? <==> k in Keys(es)
  {
    if es != [] {
      LookupFound(es[..|es| - 1], k);
      assert Keys(es) == Keys(es[..|es| - 1]) + [es[|es| - 1].0];
    }
  }

  lemma {:induction false} FilterDistinct(es: Entries, keep: string -> bool)
    requires DistinctKeys(es)
    ensures DistinctKeys(Filter(es, keep))
    ensures forall i :: 0 <= i < |Filter(es, keep)| ==> Filter(es, keep)[i].0 in Keys(es)
  {
    if es != [] {
      var init := es[..|es| - 1];
      var last := es[|es| - 1];
      FilterDistinct(init, keep);
      var ri := Filter(init, keep);
      assert Keys(es) == Keys(init) + [last.0];
      forall i | 0 <= i < |ri| ensures ri[i].0 != last.0 && ri[i].0 in Keys(es) {
        var j :| 0 <= j < |init| && Keys(init)[j] == ri[i].0;
        assert es[j].0 == ri[i].0;
      }
    }
  }

  /** `{...defaults, ...policies}`: a directive's value is the caller's when
      the caller names it and the default's otherwise, and no directive
      appears twice. */
  lemma MergedIsSpread(ps: Entries, k: string)
    ensures Lookup(Merged(ps), k) == if Lookup(ps, k).Some? then Lookup(ps, k) else Lookup(Defaults(), k)
  {
    var ds := Defaults();
    LookupAppend(Filter(ps, IsArrayIndex) + Overlay(ds, ps), Filter(ps, IsNewDirective), k);
    LookupAppend(Filter(ps, IsArrayIndex), Overlay(ds, ps), k);
    LookupFilter(ps, IsArrayIndex, k);
    LookupFilter(ps, IsNewDirective, k);
    LookupOverlay(ds, ps, k);
    if IsArrayIndex(k) && Lookup(ds, k).Some? {
      DefaultsNotIndices(k);
    }
  }

  /** No default directive is an array-index key. */
  lemma DefaultsNotIndices(k: string)
    requires IsDefaultDirective(k)
    ensures !IsArrayIndex(k)
  {
    LookupFound(Defaults(), k);
    var j :| 0 <= j < |Defaults()| && Keys(Defaults())[j] == k;
    assert !IsAsciiDigit(k[|k| - 1]);
  }

  lemma DefaultsDistinct()
    ensures DistinctKeys(Defaults())
  {
  }

  /** When the caller's directives are distinct, so are the merged ones. */
  lemma MergedDistinct(ps: Entries)
    requires DistinctKeys(ps)
    ensures DistinctKeys(Merged(ps))
  {
    var ds := Defaults();
    var a := Filter(ps, IsArrayIndex);
    var o := Overlay(ds, ps);
    var b := Filter(ps, IsNewDirective);
    FilterDistinct(ps, IsArrayIndex);
    FilterDistinct(ps, IsNewDirective);
    DefaultsDistinct();
    forall i | 0 <= i < |o| ensures !IsArrayIndex(o[i].0) && Lookup(ds, o[i].0).Some? {
      assert Keys(ds)[i] == o[i].0;
      LookupFound(ds, o[i].0);
      DefaultsNotIndices(o[i].0);
    }
    var m := a + o + b;
    forall i, j | 0 <= i < j < |m| ensures m[i].0 != m[j].0 {
      if j < |a| {
      } else if j < |a| + |o| {
        if i >= |a| {
          assert o[i - |a|].0 == ds[i - |a|].0 && o[j - |a|].0 == ds[j - |a|].0;
        }
      } else if i >= |a| + |o| {
      } else if i >= |a| {
        assert Lookup(ds, o[i - |a|].0).Some?;
      }
    }
  }

  /** A default directive keeps its position, after the caller's array-index
      keys, and takes the caller's value when the caller names it; the
      caller's new directives follow the defaults, in the caller's order. */
  lemma OverrideKeepsPosition(ps: Entries, j: nat)
    requires j < |Defaults()|
    ensures var m := Merged(ps); var n := |Filter(ps, IsArrayIndex)|;
            n + j < |m| && m[n + j].0 == Defaults()[j].0
            && m[n + j].1 == (if Lookup(ps, Defaults()[j].0).Some? then Lookup(ps, Defaults()[j].0).value else Defaults()[j].1)
    ensures var m := Merged(ps); var n := |Filter(ps, IsArrayIndex)|;
            n + |Defaults()| <= |m| && m[..n] == Filter(ps, IsArrayIndex)
            && m[n + |Defaults()|..] == Filter(ps, IsNewDirective)
  {
    var a := Filter(ps, IsArrayIndex);
    var o := Overlay(Defaults(), ps);
    var b := Filter(ps, IsNewDirective);
    assert Merged(ps) == a + o + b;
    assert (a + o + b)[..|a|] == a;
    assert (a + o + b)[|a| + |o|..] == b;
  }

  lemma SourcesItems(xs: seq<string>)
    ensures |Sources(xs).items| == |xs| && forall i :: 0 <= i < |xs| ==> Sources(xs).items[i] == Str(xs[i])
  {
  }

  /** Joining listed sources joins their strings. */
  lemma JoinSources(xs: seq<string>)
    ensures JoinValues(Sources(xs).items, " ") == Join(xs, " ")
  {
    SourcesItems(xs);
    var items := Sources(xs).items;
    var rendered := seq(|items|, i requires 0 <= i < |items| => ElementString(items[i]));
    forall i | 0 <= i < |items| ensures rendered[i] == xs[i] {
      var v := items[i];
      assert v == Str(xs[i]);
      assert ElementString(v) == xs[i];
    }
    assert rendered == xs;
  }

  /** The part of a directive with listed sources. */
  lemma PartOfSources(name: string, xs: seq<string>)
    requires |xs| > 0
    ensures Part(name, Sources(xs)) == Some(name + " " + Join(xs, " "))
  {
    JoinSources(xs);
  }

  /** The part of a listed directive whose sources join to `joined`. */
  lemma ListedPart(name: string, xs: seq<string>, joined: string)
    requires |xs| > 0 && Join(xs, " ") == joined
    ensures PartList((name, Sources(xs))) == [name + " " + joined]
  {
    PartOfSources(name, xs);
  }

  /** The part each default directive contributes on its own. */
  lemma DefaultPartLists()
    ensures var ds := Defaults();
      PartList(ds[0]) == ["default-src" + " " + "'self'"]
      && PartList(ds[1]) == ["script-src" + " " + "'self' 'unsafe-inline'"]
      && PartList(ds[2]) == ["style-src" + " " + "'self' 'unsafe-inline'"]
      && PartList(ds[3]) == ["img-src" + " " + "'self' data: https:"]
      && PartList(ds[4]) == ["font-src" + " " + "'self'"]
      && PartList(ds[5]) == ["connect-src" + " " + "'self'"]
      && PartList(ds[6]) == []
      && PartList(ds[7]) == ["object-src" + " " + "'none'"]
      && PartList(ds[8]) == ["base-uri" + " " + "'self'"]
      && PartList(ds[9]) == ["form-action" + " " + "'self'"]
  {
    JoinSingle("'self'", " ");
    JoinSingle("'none'", " ");
    JoinPair("'self'", "'unsafe-inline'", " ");
    JoinTriple("'self'", "data:", "https:", " ");
    ListedPart("default-src", ["'self'"], "'self'");
    ListedPart("script-src", ["'self'", "'unsafe-inline'"], "'self' 'unsafe-inline'");
    ListedPart("style-src", ["'self'", "'unsafe-inline'"], "'self' 'unsafe-inline'");
    ListedPart("img-src", ["'self'", "data:", "https:"], "'self' data: https:");
    ListedPart("font-src", ["'self'"], "'self'");
    ListedPart("connect-src", ["'self'"], "'self'");
    ListedPart("object-src", ["'none'"], "'none'");
    ListedPart("base-uri", ["'self'"], "'self'");
    ListedPart("form-action", ["'self'"], "'self'");
  }

  /** With no policies the defaults are emitted in order; `frame-src`, whose
      sources are empty, is left out. */
  lemma DefaultParts()
    ensures Parts(Merged([])) ==
      [ "default-src" + " " + "'self'", "script-src" + " " + "'self' 'unsafe-inline'", "style-src" + " " + "'self' 'unsafe-inline'",
        "img-src" + " " + "'self' data: https:", "font-src" + " " + "'self'", "connect-src" + " " + "'self'", "object-src" + " " + "'none'",
        "base-uri" + " " + "'self'", "form-action" + " " + "'self'" ]
  {
    var ds := Defaults();
    assert Merged([]) == ds;
    DefaultPartLists();
    PartsOfTen(ds);
    NineOfTen("default-src" + " " + "'self'", "script-src" + " " + "'self' 'unsafe-inline'",
      "style-src" + " " + "'self' 'unsafe-inline'", "img-src" + " " + "'self' data: https:",
      "font-src" + " " + "'self'", "connect-src" + " " + "'self'", "object-src" + " " + "'none'",
      "base-uri" + " " + "'self'", "form-action" + " " + "'self'");
  }

  /** Nine one-part lists and one empty list, in the order of the defaults. */
  lemma NineOfTen(a: string, b: string, c: string, d: string, e: string, f: string, g: string, h: string, i: string)
    ensures ([a] + [b] + [c] + [d] + [e]) + ([f] + [] + [g] + [h] + [i]) == [a, b, c, d, e, f, g, h, i]
  {
  }

  /** The parts of two runs of entries are the parts of each, in order. */
  lemma {:induction false} PartsAppend(xs: Entries, ys: Entries)
    ensures Parts(xs + ys) == Parts(xs) + Parts(ys)
    decreases |ys|
  {
    if ys == [] {
      assert xs + ys == xs;
    } else {
      var init, last := ys[..|ys| - 1], ys[|ys| - 1];
      var zs := xs + ys;
      assert zs[..|zs| - 1] == xs + init && zs[|zs| - 1] == last;
      assert Parts(zs) == Parts(xs + init) + PartList(last);
      assert Parts(ys) == Parts(init) + PartList(last);
      PartsAppend(xs, init);
    }
  }

  /** The parts of five entries, entry by entry. */
  lemma PartsOfFive(es: Entries)
    requires |es| == 5
    ensures Parts(es) == PartList(es[0]) + PartList(es[1]) + PartList(es[2]) + PartList(es[3]) + PartList(es[4])
  {
    assert es[..0] == [];
    PartsPrefix(es, 0);
    assert Parts(es[..1]) == PartList(es[0]);
    PartsPrefix(es, 1);
    assert Parts(es[..2]) == PartList(es[0]) + PartList(es[1]);
    PartsPrefix(es, 2);
    assert Parts(es[..3]) == PartList(es[0]) + PartList(es[1]) + PartList(es[2]);
    PartsPrefix(es, 3);
    assert Parts(es[..4]) == PartList(es[0]) + PartList(es[1]) + PartList(es[2]) + PartList(es[3]);
    PartsPrefix(es, 4);
    assert es[..5] == es;
  }

  /** The parts of ten entries, five by five. */
  lemma PartsOfTen(es: Entries)
    requires |es| == 10
    ensures Parts(es) == (PartList(es[0]) + PartList(es[1]) + PartList(es[2]) + PartList(es[3]) + PartList(es[4]))
      + (PartList(es[5]) + PartList(es[6]) + PartList(es[7]) + PartList(es[8]) + PartList(es[9]))
  {
    var xs, ys := es[..5], es[5..];
    assert es == xs + ys;
    PartsAppend(xs, ys);
    PartsOfFive(xs);
    PartsOfFive(ys);
  }

}
