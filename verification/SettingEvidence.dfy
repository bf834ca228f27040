/** The one-pass settings scan with deferred resolution
    (`scripts/_setting_reachability_evidence.py`, `_setting_reachability_helpers.py`)
    and the two-pass scan it must agree with. */
module SettingEvidence {
  import opened Prelude

  type Pair = (string, string)

  /** A function that reads a setting named partly by its caller. `namespace` is
      `None` when the caller names it and the whole namespace is read. */
  datatype Helper = Helper(parameter: string, index: Option<int>, receivesInstance: bool, namespace: Option<string>)

  /** A call as resolved in its module: the strings each argument can denote. */
  datatype Call = Call(name: Option<string>, attributeCall: bool, positional: seq<set<string>>,
                       keywords: map<string, set<string>>, isConstruction: bool)

  /** One node the walk meets in module `rel`: the pairs it names by itself, the
      forwarding reads it performs on behalf of the enclosing function, and its call. */
  datatype Site = Site(rel: string, direct: set<Pair>, declares: set<(string, Helper)>, call: Call)

  // ---------- the helper index ----------

  type Declarations = map<string, set<Helper>>

  function Declared(d: Declarations, name: string): set<Helper> {
    if name in d then d[name] else {}
  }

  function Only<T(==)>(s: set<T>): T
    requires |s| == 1
  {
    Singleton(s);
    var x :| x in s;
    x
  }

  lemma Singleton<T>(s: set<T>)
    requires |s| == 1
    ensures exists x :: x in s && s == {x}
  {
    var x :| x in s;
    assert |s - {x}| == 0;
    assert s == {x};
  }

  /** The names that resolve to exactly one reading. */
  function Unambiguous(d: Declarations): map<string, Helper> {
    map name | name in d && |d[name]| == 1 :: Only(d[name])
  }

  datatype HelperIndex = HelperIndex(perModule: map<string, map<string, Helper>>, shared: map<string, Helper>)

  /** The module's own declaration wins over the shared one. */
  function Lookup(index: HelperIndex, rel: string, name: Option<string>): Option<Helper> {
    if name.None? then None
    else
      var local := if rel in index.perModule then index.perModule[rel] else map[];
      if name.value in local then Some(local[name.value])
      else if name.value in index.shared then Some(index.shared[name.value]) else None
  }

  // ---------- what is declared ----------

  /** A reading of a name, with the module declaring it. */
  datatype Fact = Fact(rel: string, name: string, helper: Helper)

  function FactsAt(site: Site): set<Fact> {
    set d | d in site.declares :: Fact(site.rel, d.0, d.1)
  }

  function FactsOf(sites: seq<Site>): set<Fact> {
    if sites == [] then {} else FactsOf(sites[..|sites| - 1]) + FactsAt(sites[|sites| - 1])
  }

  function LocalReadings(facts: set<Fact>, rel: string, name: string): set<Helper> {
    set f | f in facts && f.rel == rel && f.name == name :: f.helper
  }

  function AllReadings(facts: set<Fact>, name: string): set<Helper> {
    set f | f in facts && f.name == name :: f.helper
  }

  function Sole(readings: set<Helper>): Option<Helper> {
    if |readings| == 1 then Some(Only(readings)) else None
  }

  /** What a name means from inside a module: its own sole reading there, else the
      sole reading in the whole tree. */
  function Meaning(facts: set<Fact>, rel: string, name: Option<string>): Option<Helper> {
    if name.None? then None
    else
      var local := Sole(LocalReadings(facts, rel, name.value));
      if local.Some? then local else Sole(AllReadings(facts, name.value))
  }

  /** A name ambiguous inside one module is shared with nobody. */
  lemma LocallyAmbiguousIsNotShared(facts: set<Fact>, rel: string, name: string)
    requires |LocalReadings(facts, rel, name)| > 1
    ensures Sole(AllReadings(facts, name)) == None && Meaning(facts, rel, Some(name)) == None
  {
    SubsetSize(LocalReadings(facts, rel, name), AllReadings(facts, name));
  }

  // ---------- crediting ----------

  /** Where a call's argument sits, seen from this call's shape. */
  function IndexFor(h: Helper, attributeCall: bool): Option<int> {
    if h.index.None? then None
    else Some(h.index.value - if attributeCall && h.receivesInstance then 1 else 0)
  }

  /** The literals the call binds to the helper's parameter. */
  function Argument(c: Call, h: Helper): set<string> {
    if h.parameter in c.keywords then c.keywords[h.parameter]
    else
      var at := IndexFor(h, c.attributeCall);
      if at.Some? && 0 <= at.value < |c.positional| then c.positional[at.value] else {}
  }

  /** The registered pairs a call through `h` reads. */
  function Credited(c: Call, h: Helper, pairs: set<Pair>): set<Pair> {
    var resolved := Argument(c, h);
    if h.namespace.None? then set p | p in pairs && p.0 in resolved
    else set p | p in pairs && p.0 == h.namespace.value && p.1 in resolved
  }

  // ---------- what the language binds ----------

  /** A signature's positional parameters, a method's receiver first, and those that
      only a keyword can fill. */
  datatype Signature = Signature(positional: seq<string>, keywordOnly: seq<string>)

  predicate TakesReceiver(f: Signature) {
    f.positional != [] && (f.positional[0] == "self" || f.positional[0] == "cls")
  }

  function PositionOf(names: seq<string>, name: string): Option<nat> {
    if names == [] then None
    else if names[0] == name then Some(0)
    else
      match PositionOf(names[1..], name)
      case None => None
      case Some(k) => Some(k + 1)
  }

  /** The record the collector makes for a forwarded parameter. */
  function HelperFor(f: Signature, parameter: string, namespace: Option<string>): Helper {
    Helper(parameter, PositionOf(f.positional, parameter), TakesReceiver(f), namespace)
  }

  /** What a call passes by position: with a receiver, the object goes before the
      arguments that are written. It is no literal. */
  function Passed(c: Call, receiver: bool): seq<set<string>> {
    if receiver then [{}] + c.positional else c.positional
  }

  /** Parameters take the passed arguments one by one. */
  function TakenByPosition(names: seq<string>, passed: seq<set<string>>, name: string): set<string> {
    if names == [] || passed == [] then {}
    else if names[0] == name then passed[0]
    else TakenByPosition(names[1..], passed[1..], name)
  }

  /** The literals a parameter receives from a call, by keyword or by position. */
  function Received(f: Signature, c: Call, receiver: bool, parameter: string): set<string> {
    if parameter in c.keywords then c.keywords[parameter]
    else TakenByPosition(f.positional, Passed(c, receiver), parameter)
  }

  /** What the index takes for a call with a receiver: an attribute call of a function
      whose first parameter has one of the two customary names. */
  ghost predicate LooksBound(f: Signature, c: Call) {
    c.attributeCall && f.positional != [] && f.positional[0] in ["self", "cls"]
  }

  lemma {:induction false} TakenAtPosition(names: seq<string>, passed: seq<set<string>>, name: string)
    ensures TakenByPosition(names, passed, name) ==
            match PositionOf(names, name)
            case None => {}
            case Some(k) => if k < |passed| then passed[k] else {}
  {
    if names != [] && passed != [] && names[0] != name {
      TakenAtPosition(names[1..], passed[1..], name);
    }
  }

  /** A call's argument for a helper is what the helper's parameter receives, by keyword
      first, where the call has a receiver just when it looks like it. */
  lemma ArgumentIsReceived(f: Signature, c: Call, parameter: string, namespace: Option<string>)
    ensures Argument(c, HelperFor(f, parameter, namespace)) == Received(f, c, LooksBound(f, c), parameter)
  {
    TakenAtPosition(f.positional, Passed(c, LooksBound(f, c)), parameter);
  }

  /** Otherwise it reads the neighbour's argument: of a method called through its class
      the one before, of a method whose receiver has another name the one behind. */
  lemma OtherReceiverIsShifted(f: Signature, c: Call, k: nat, namespace: Option<string>)
    requires k < |f.positional| && PositionOf(f.positional, f.positional[k]) == Some(k) && f.positional[k] !in c.keywords
    ensures LooksBound(f, c) && 0 < k < |c.positional| ==>
              && Received(f, c, false, f.positional[k]) == c.positional[k]
              && Argument(c, HelperFor(f, f.positional[k], namespace)) == c.positional[k - 1]
    ensures !LooksBound(f, c) && 0 < k < |c.positional| ==>
              && Received(f, c, true, f.positional[k]) == c.positional[k - 1]
              && Argument(c, HelperFor(f, f.positional[k], namespace)) == c.positional[k]
  {
    TakenAtPosition(f.positional, Passed(c, true), f.positional[k]);
    TakenAtPosition(f.positional, Passed(c, false), f.positional[k]);
  }

  /** A helper that leaves the namespace to its caller reads all of every namespace its
      parameter receives; one with a namespace of its own reads in it the keys received. */
  lemma CreditIsReceived(f: Signature, c: Call, parameter: string, pairs: set<Pair>, namespace: string, key: string)
    ensures (namespace, key) in Credited(c, HelperFor(f, parameter, None), pairs) <==>
            (namespace, key) in pairs && namespace in Received(f, c, LooksBound(f, c), parameter)
    ensures (namespace, key) in Credited(c, HelperFor(f, parameter, Some(namespace)), pairs) <==>
            (namespace, key) in pairs && key in Received(f, c, LooksBound(f, c), parameter)
    ensures forall own :: own != namespace ==> (namespace, key) !in Credited(c, HelperFor(f, parameter, Some(own)), pairs)
  {
    ArgumentIsReceived(f, c, parameter, None);
    ArgumentIsReceived(f, c, parameter, Some(namespace));
  }

  // ---------- deferring ----------

  function Addressable(pairs: set<Pair>): set<string> {
    (set p | p in pairs :: p.0) + (set p | p in pairs :: p.1)
  }

  function Restrict(c: Call, names: set<string>): Call {
    c.(positional := seq(|c.positional|, i requires 0 <= i < |c.positional| => c.positional[i] * names),
       keywords := map k | k in c.keywords :: c.keywords[k] * names)
  }

  predicate BindsNothing(c: Call) {
    && (forall i :: 0 <= i < |c.positional| ==> c.positional[i] == {})
    && forall k :: k in c.keywords ==> c.keywords[k] == {}
  }

  /** Keeping only strings that name a registered setting loses no credit. */
  lemma RestrictingKeepsCredit(c: Call, h: Helper, pairs: set<Pair>)
    ensures Credited(Restrict(c, Addressable(pairs)), h, pairs) == Credited(c, h, pairs)
  {
  }

  // ---------- the two-pass specification ----------

  /** `p` is credited by one call, given everything declared in the tree. */
  predicate CreditedAt(rel: string, c: Call, facts: set<Fact>, pairs: set<Pair>, construction: bool, p: Pair) {
    && c.isConstruction == construction
    && var h := Meaning(facts, rel, c.name);
       h.Some? && p in Credited(c, h.value, pairs)
  }

  predicate NamedDirectly(sites: seq<Site>, construction: bool, p: Pair) {
    exists k :: 0 <= k < |sites| && sites[k].call.isConstruction == construction && p in sites[k].direct
  }

  predicate SitesCredit(sites: seq<Site>, facts: set<Fact>, pairs: set<Pair>, construction: bool, p: Pair) {
    exists k :: 0 <= k < |sites| && CreditedAt(sites[k].rel, sites[k].call, facts, pairs, construction, p)
  }

  /** The evidence of one sink: what nodes name directly, and what every call of the
      tree, unfiltered, reads through the helpers of the finished index. */
  predicate TwoPass(sites: seq<Site>, pairs: set<Pair>, construction: bool, p: Pair) {
    NamedDirectly(sites, construction, p) || SitesCredit(sites, FactsOf(sites), pairs, construction, p)
  }

  lemma {:induction false} FactIsDeclared(sites: seq<Site>, f: Fact)
    ensures f in FactsOf(sites) <==> exists k :: 0 <= k < |sites| && f in FactsAt(sites[k])
  {
    if sites != [] {
      var k := |sites| - 1;
      FactIsDeclared(sites[..k], f);
      if f in FactsOf(sites[..k]) {
        var i :| 0 <= i < k && f in FactsAt(sites[..k][i]);
        assert f in FactsAt(sites[i]);
      }
      if i :| 0 <= i < |sites| && f in FactsAt(sites[i]) && i < k {
        assert f in FactsAt(sites[..k][i]);
      }
    }
  }

  lemma PositionIn(a: seq<Site>, b: seq<Site>, k: nat) returns (i: nat)
    requires multiset(a) == multiset(b) && k < |a|
    ensures i < |b| && b[i] == a[k]
  {
    assert a[k] in multiset(b);
    assert a[k] in b;
    i :| 0 <= i < |b| && b[i] == a[k];
  }

  lemma SameFacts(a: seq<Site>, b: seq<Site>)
    requires multiset(a) == multiset(b)
    ensures FactsOf(a) <= FactsOf(b)
  {
    forall f | f in FactsOf(a) ensures f in FactsOf(b) {
      FactIsDeclared(a, f);
      FactIsDeclared(b, f);
      var k :| 0 <= k < |a| && f in FactsAt(a[k]);
      var i := PositionIn(a, b, k);
      assert f in FactsAt(b[i]);
    }
  }

  lemma SameCredit(a: seq<Site>, b: seq<Site>, facts: set<Fact>, pairs: set<Pair>, construction: bool, p: Pair)
    requires multiset(a) == multiset(b)
    ensures NamedDirectly(a, construction, p) ==> NamedDirectly(b, construction, p)
    ensures SitesCredit(a, facts, pairs, construction, p) ==> SitesCredit(b, facts, pairs, construction, p)
  {
    if k :| 0 <= k < |a| && a[k].call.isConstruction == construction && p in a[k].direct {
      var i := PositionIn(a, b, k);
    }
    if k :| 0 <= k < |a| && CreditedAt(a[k].rel, a[k].call, facts, pairs, construction, p) {
      var i := PositionIn(a, b, k);
    }
  }

  /** The evidence does not depend on the order the modules are walked in. */
  lemma OrderDoesNotMatter(a: seq<Site>, b: seq<Site>, pairs: set<Pair>, construction: bool, p: Pair)
    requires multiset(a) == multiset(b)
    ensures TwoPass(a, pairs, construction, p) <==> TwoPass(b, pairs, construction, p)
  {
    SameFacts(a, b);
    SameFacts(b, a);
    assert FactsOf(a) == FactsOf(b);
    SameCredit(a, b, FactsOf(a), pairs, construction, p);
    SameCredit(b, a, FactsOf(a), pairs, construction, p);
  }

  // ---------- the collector ----------

  function Recorded(perModule: map<string, Declarations>, rel: string, name: string): set<Helper> {
    if rel in perModule then Declared(perModule[rel], name) else {}
  }

  /** The nested dictionaries hold exactly the given facts. */
  ghost predicate Holds(perModule: map<string, Declarations>, facts: set<Fact>) {
    forall rel, name :: Recorded(perModule, rel, name) == LocalReadings(facts, rel, name)
  }

  function WithFact(perModule: map<string, Declarations>, f: Fact): map<string, Declarations> {
    var declarations := if f.rel in perModule then perModule[f.rel] else map[];
    perModule[f.rel := declarations[f.name := Declared(declarations, f.name) + {f.helper}]]
  }

  lemma AddingHolds(perModule: map<string, Declarations>, facts: set<Fact>, f: Fact)
    requires Holds(perModule, facts)
    ensures Holds(WithFact(perModule, f), facts + {f})
  {
    forall rel, name
      ensures Recorded(WithFact(perModule, f), rel, name) == LocalReadings(facts + {f}, rel, name)
    {
      assert Recorded(perModule, rel, name) == LocalReadings(facts, rel, name);
      if rel == f.rel && name == f.name {
        assert LocalReadings(facts + {f}, rel, name) == LocalReadings(facts, rel, name) + {f.helper};
      } else {
        assert LocalReadings(facts + {f}, rel, name) == LocalReadings(facts, rel, name);
      }
    }
  }

  /** Accumulates declarations as the walk finds them. */
  class HelperCollector {
    var perModule: map<string, Declarations>
    ghost var facts: set<Fact>

    ghost predicate Valid()
      reads this
    {
      Holds(perModule, facts)
    }

    constructor ()
      ensures Valid() && facts == {}
    {
      perModule := map[];
      facts := {};
    }

    method Observe(site: Site)
      requires Valid()
      modifies this
      ensures Valid() && facts == old(facts) + FactsAt(site)
    {
      var left := FactsAt(site);
      while left != {}
        invariant Valid() && left <= FactsAt(site)
        invariant facts == old(facts) + (FactsAt(site) - left)
        decreases |left|
      {
        var f :| f in left;
        AddingHolds(perModule, facts, f);
        perModule := WithFact(perModule, f);
        facts := facts + {f};
        left := left - {f};
      }
    }

    /** The finished index, with the names ambiguity removed from the shared map. */
    method Index() returns (index: HelperIndex, dropped: set<string>)
      requires Valid()
      ensures forall rel, name :: Lookup(index, rel, name) == Meaning(facts, rel, name)
      ensures forall name :: name in dropped ==> |AllReadings(facts, name)| != 1
      ensures forall name :: |AllReadings(facts, name)| > 1 ==> name in dropped
    {
      var shared := MergeModules(perModule, facts);
      index := HelperIndex(map rel | rel in perModule :: Unambiguous(perModule[rel]), Unambiguous(shared));
      dropped := set name | name in shared && |shared[name]| != 1;
      forall rel, name ensures Lookup(index, rel, name) == Meaning(facts, rel, name) {
      }
      forall name | |AllReadings(facts, name)| > 1 ensures name in dropped {
        assert Declared(shared, name) == AllReadings(facts, name);
      }
      forall name | name in dropped ensures |AllReadings(facts, name)| != 1 {
        assert Declared(shared, name) == AllReadings(facts, name);
      }
    }
  }

  ghost predicate DeclaredIn(perModule: map<string, Declarations>, rels: set<string>, name: string, h: Helper) {
    exists rel :: rel in rels && h in Recorded(perModule, rel, name)
  }

  /** Per name, the union of what every module declares. */
  method MergeModules(perModule: map<string, Declarations>, ghost facts: set<Fact>) returns (shared: Declarations)
    requires Holds(perModule, facts)
    ensures forall name :: Declared(shared, name) == AllReadings(facts, name)
  {
    shared := map[];
    var left := perModule.Keys;
    while left != {}
      invariant left <= perModule.Keys
      invariant forall name, h :: h in Declared(shared, name) <==> DeclaredIn(perModule, perModule.Keys - left, name, h)
      decreases |left|
    {
      var rel :| rel in left;
      var declarations := perModule[rel];
      ghost var before, done := shared, perModule.Keys - left;
      shared := map name | name in shared.Keys + declarations.Keys ::
                  Declared(shared, name) + Declared(declarations, name);
      left := left - {rel};
      assert perModule.Keys - left == done + {rel};
      forall name, h
        ensures h in Declared(shared, name) <==> DeclaredIn(perModule, done + {rel}, name, h)
      {
        assert h in Declared(before, name) <==> DeclaredIn(perModule, done, name, h);
        assert Recorded(perModule, rel, name) == Declared(declarations, name);
        assert h in Declared(shared, name) <==> h in Declared(before, name) || h in Declared(declarations, name);
      }
    }
    assert perModule.Keys - left == perModule.Keys;
    forall name ensures Declared(shared, name) == AllReadings(facts, name) {
      forall h ensures h in Declared(shared, name) <==> h in AllReadings(facts, name) {
        DeclaredInIsReading(perModule, facts, name, h);
      }
    }
  }

  lemma DeclaredInIsReading(perModule: map<string, Declarations>, facts: set<Fact>, name: string, h: Helper)
    requires Holds(perModule, facts)
    ensures DeclaredIn(perModule, perModule.Keys, name, h) <==> h in AllReadings(facts, name)
  {
    if h in AllReadings(facts, name) {
      var f :| f in facts && f.name == name && f.helper == h;
      assert h in LocalReadings(facts, f.rel, name) && h in Recorded(perModule, f.rel, name);
    }
    if DeclaredIn(perModule, perModule.Keys, name, h) {
      var rel :| rel in perModule && h in Recorded(perModule, rel, name);
      assert h in LocalReadings(facts, rel, name);
    }
  }

  // ---------- the single walk ----------

  /** A call kept for later, with only the strings that name a registered setting. */
  datatype Deferred = Deferred(rel: string, call: Call)

  function Record(site: Site, names: set<string>): Option<Deferred> {
    if site.call.name.None? then None
    else
      var kept := Restrict(site.call, names);
      if BindsNothing(kept) then None else Some(Deferred(site.rel, kept))
  }

  /** Recording a call or skipping it credits what the call itself would. */
  lemma RecordKeepsCredit(site: Site, facts: set<Fact>, pairs: set<Pair>, construction: bool, p: Pair)
    ensures var record := Record(site, Addressable(pairs));
            CreditedAt(site.rel, site.call, facts, pairs, construction, p) <==>
            record.Some? && CreditedAt(record.value.rel, record.value.call, facts, pairs, construction, p)
  {
    var kept := Restrict(site.call, Addressable(pairs));
    var h := Meaning(facts, site.rel, site.call.name);
    if h.Some? {
      RestrictingKeepsCredit(site.call, h.value, pairs);
      if BindsNothing(kept) {
      }
    }
  }

  /** The deferred list credits, against any declarations, what the calls seen so far would. */
  ghost predicate Covers(deferred: seq<Deferred>, sites: seq<Site>, pairs: set<Pair>) {
    forall facts, construction, p ::
      DeferredCredits(deferred, facts, pairs, construction, p) <==> SitesCredit(sites, facts, pairs, construction, p)
  }

  predicate DeferredCredits(deferred: seq<Deferred>, facts: set<Fact>, pairs: set<Pair>, construction: bool, p: Pair) {
    exists k :: 0 <= k < |deferred| && CreditedAt(deferred[k].rel, deferred[k].call, facts, pairs, construction, p)
  }

  lemma CoversOneMore(deferred: seq<Deferred>, sites: seq<Site>, site: Site, pairs: set<Pair>)
    requires Covers(deferred, sites, pairs)
    ensures var record := Record(site, Addressable(pairs));
            Covers(deferred + (if record.Some? then [record.value] else []), sites + [site], pairs)
  {
    var record := Record(site, Addressable(pairs));
    var more := deferred + (if record.Some? then [record.value] else []);
    forall facts, construction, p
      ensures DeferredCredits(more, facts, pairs, construction, p) <==>
              SitesCredit(sites + [site], facts, pairs, construction, p)
    {
      RecordKeepsCredit(site, facts, pairs, construction, p);
      CreditSplits(sites, [site], facts, pairs, construction, p);
      DeferredSplits(deferred, if record.Some? then [record.value] else [], facts, pairs, construction, p);
      OneSite(site, facts, pairs, construction, p);
      if record.Some? {
        OneDeferred(record.value, facts, pairs, construction, p);
      }
      assert DeferredCredits(deferred, facts, pairs, construction, p) <==> SitesCredit(sites, facts, pairs, construction, p);
    }
  }

  lemma OneSite(site: Site, facts: set<Fact>, pairs: set<Pair>, construction: bool, p: Pair)
    ensures SitesCredit([site], facts, pairs, construction, p) <==>
            CreditedAt(site.rel, site.call, facts, pairs, construction, p)
  {
    assert [site][0] == site;
  }

  lemma OneDeferred(d: Deferred, facts: set<Fact>, pairs: set<Pair>, construction: bool, p: Pair)
    ensures DeferredCredits([d], facts, pairs, construction, p) <==>
            CreditedAt(d.rel, d.call, facts, pairs, construction, p)
  {
    assert [d][0] == d;
  }

  lemma CreditSplits(a: seq<Site>, b: seq<Site>, facts: set<Fact>, pairs: set<Pair>, construction: bool, p: Pair)
    ensures SitesCredit(a + b, facts, pairs, construction, p) <==>
            SitesCredit(a, facts, pairs, construction, p) || SitesCredit(b, facts, pairs, construction, p)
  {
    if k :| 0 <= k < |a| && CreditedAt(a[k].rel, a[k].call, facts, pairs, construction, p) {
      assert (a + b)[k] == a[k];
    }
    if k :| 0 <= k < |b| && CreditedAt(b[k].rel, b[k].call, facts, pairs, construction, p) {
      assert (a + b)[|a| + k] == b[k];
    }
  }

  lemma DeferredSplits(a: seq<Deferred>, b: seq<Deferred>, facts: set<Fact>, pairs: set<Pair>, construction: bool, p: Pair)
    ensures DeferredCredits(a + b, facts, pairs, construction, p) <==>
            DeferredCredits(a, facts, pairs, construction, p) || DeferredCredits(b, facts, pairs, construction, p)
  {
    if k :| 0 <= k < |a| && CreditedAt(a[k].rel, a[k].call, facts, pairs, construction, p) {
      assert (a + b)[k] == a[k];
    }
    if k :| 0 <= k < |b| && CreditedAt(b[k].rel, b[k].call, facts, pairs, construction, p) {
      assert (a + b)[|a| + k] == b[k];
    }
  }

  /** The accumulators of one walk. */
  class Scan {
    const pairs: set<Pair>
    const collector: HelperCollector
    var live: set<Pair>
    var construction: set<Pair>
    var deferred: seq<Deferred>

    constructor (pairs: set<Pair>)
      ensures this.pairs == pairs && fresh(collector) && collector.Valid() && collector.facts == {}
      ensures live == {} && construction == {} && deferred == []
    {
      this.pairs := pairs;
      var c := new HelperCollector();
      collector := c;
      live, construction, deferred := {}, {}, [];
    }

    function Sink(isConstruction: bool): set<Pair>
      reads this
    {
      if isConstruction then construction else live
    }

    /** Routes one node: direct evidence, declarations, and the call for later. */
    method Visit(site: Site, ghost before: seq<Site>)
      requires collector.Valid() && Covers(deferred, before, pairs)
      modifies this, collector
      ensures collector.Valid() && collector.facts == old(collector.facts) + FactsAt(site)
      ensures Covers(deferred, before + [site], pairs)
      ensures forall b :: Sink(b) == old(Sink(b)) + if site.call.isConstruction == b then site.direct else {}
    {
      if site.call.isConstruction {
        construction := construction + site.direct;
      } else {
        live := live + site.direct;
      }
      collector.Observe(site);
      CoversOneMore(deferred, before, site, pairs);
      var record := Record(site, Addressable(pairs));
      if record.Some? {
        deferred := deferred + [record.value];
      } else {
        assert deferred + [] == deferred;
      }
    }

    /** Credits the recorded calls against the finished index. */
    method ResolveDeferred()
      requires collector.Valid()
      modifies `live, `construction
      ensures forall b, p :: p in Sink(b) <==>
                p in old(Sink(b)) || DeferredCredits(deferred, collector.facts, pairs, b, p)
    {
      var index, dropped := collector.Index();
      for i := 0 to |deferred|
        invariant forall b, p :: p in Sink(b) <==>
                    p in old(Sink(b)) || DeferredCredits(deferred[..i], collector.facts, pairs, b, p)
      {
        var record := deferred[i];
        var helper := Lookup(index, record.rel, record.call.name);
        var credited := if helper.Some? then Credited(record.call, helper.value, pairs) else {};
        if record.call.isConstruction {
          construction := construction + credited;
        } else {
          live := live + credited;
        }
        assert deferred[..i + 1] == deferred[..i] + [record];
        forall b, p
          ensures p in Sink(b) <==> p in old(Sink(b)) || DeferredCredits(deferred[..i + 1], collector.facts, pairs, b, p)
        {
          DeferredSplits(deferred[..i], [record], collector.facts, pairs, b, p);
          OneDeferred(record, collector.facts, pairs, b, p);
        }
      }
      assert deferred[..|deferred|] == deferred;
    }
  }

  /** One walk with deferral credits exactly what the two passes would, in both sinks. */
  method CollectEvidence(sites: seq<Site>, pairs: set<Pair>) returns (live: set<Pair>, construction: set<Pair>)
    ensures forall p :: p in live <==> TwoPass(sites, pairs, false, p)
    ensures forall p :: p in construction <==> TwoPass(sites, pairs, true, p)
  {
    var scan := new Scan(pairs);
    for i := 0 to |sites|
      invariant fresh(scan) && fresh(scan.collector) && scan.pairs == pairs
      invariant scan.collector.Valid() && scan.collector.facts == FactsOf(sites[..i])
      invariant Covers(scan.deferred, sites[..i], pairs)
      invariant forall b, p :: p in scan.Sink(b) <==>
                  exists k :: 0 <= k < i && sites[k].call.isConstruction == b && p in sites[k].direct
    {
      assert sites[..i + 1] == sites[..i] + [sites[i]];
      scan.Visit(sites[i], sites[..i]);
    }
    assert sites[..|sites|] == sites;
    scan.ResolveDeferred();
    live, construction := scan.live, scan.construction;
    forall b, p ensures p in scan.Sink(b) <==> TwoPass(sites, pairs, b, p) {
      assert SitesCredit(sites, FactsOf(sites), pairs, b, p) <==> DeferredCredits(scan.deferred, FactsOf(sites), pairs, b, p);
    }
    assert live == scan.Sink(false) && construction == scan.Sink(true);
  }
}
