/** Raw server objects and the report records they are reduced to. Fields
    are copied through unchanged, absent ones stay absent; every field the
    projection does not name is dropped. A hotspot's message is copied into
    a `description` field as well, and its component key loses everything
    up to and including its last ':'. */
module Records {
  import opened Wrappers
  import opened Strings

  /** A rule as `/api/rules/search` returns it, reduced to the fields the
      report reads. */
  datatype RawRule = RawRule(
    key: Option<string>,
    htmlDesc: Option<string>,
    name: Option<string>,
    vulnerabilityProbability: Option<string>)

  datatype Rule = Rule(
    key: Option<string>,
    htmlDesc: Option<string>,
    name: Option<string>,
    vulnerabilityProbability: Option<string>)

  /** A hotspot as `/api/hotspots/search` returns it. */
  datatype RawHotspot = RawHotspot(
    vulnerabilityProbability: Option<string>,
    status: Option<string>,
    component: string,
    line: Option<int>,
    message: Option<string>,
    key: Option<string>)

  datatype Hotspot = Hotspot(
    vulnerabilityProbability: Option<string>,
    status: Option<string>,
    component: string,
    line: Option<int>,
    description: Option<string>,
    message: Option<string>,
    key: Option<string>)

  /** `component.split(':').pop()`: the text after the last ':', or the
      whole key when it has none. */
  function ComponentPath(component: string): (path: string)
    ensures Free(path, ':')
    ensures IsSuffix(path, component)
    ensures Free(component, ':') <==> path == component
    ensures !Free(component, ':') ==>
              |path| < |component| && component[|component| - |path| - 1] == ':'
  {
    var parts := Split(component, ":");
    SplitPartsFree(component, ':');
    LastPartIsSuffix(component, ":");
    SplitCutsIffPresent(component, ':');
    Last(parts)
  }

  /** The suffix after the last ':' is the only one that is free of ':' and
      either the whole key or directly preceded by ':'. */
  lemma ComponentPathUnique(component: string, path: string)
    requires Free(path, ':') && IsSuffix(path, component)
    requires path == component || (|path| < |component| && component[|component| - |path| - 1] == ':')
    ensures path == ComponentPath(component)
  {
    var q := ComponentPath(component);
    var n := |component|;
    if |path| != |q| {
      assert false;
    } else {
      assert path == component[n - |path|..] == q;
    }
  }

  /** "myproj:src/Foo.java" reduces to "src/Foo.java". */
  lemma ComponentPathExample()
    ensures ComponentPath("myproj:src/Foo.java") == "src/Foo.java"
  {
    var c, path := "myproj:src/Foo.java", "src/Foo.java";
    assert Free(path, ':');
    assert IsSuffix(path, c) by { assert c[7..] == path; }
    assert c[6] == ':';
    ComponentPathUnique(c, path);
  }

  /** Every colon goes: a key with several colons keeps only its last segment. */
  lemma ComponentPathLastSegmentExample()
    ensures ComponentPath("org:proj:lib/a:b.txt") == "b.txt"
  {
    var c, path := "org:proj:lib/a:b.txt", "b.txt";
    assert Free(path, ':');
    assert IsSuffix(path, c) by { assert c[15..] == path; }
    assert c[14] == ':';
    ComponentPathUnique(c, path);
  }

  function ProjectRule(r: RawRule): Rule {
    Rule(r.key, r.htmlDesc, r.name, r.vulnerabilityProbability)
  }

  function ProjectHotspot(h: RawHotspot): Hotspot {
    Hotspot(
      vulnerabilityProbability := h.vulnerabilityProbability,
      status := h.status,
      component := ComponentPath(h.component),
      line := h.line,
      description := h.message,
      message := h.message,
      key := h.key)
  }

  /** `rules.map(...)`: one record per raw rule, in order, the four named
      fields copied. */
  function ProjectRules(raw: seq<RawRule>): (rules: seq<Rule>)
    ensures |rules| == |raw|
    ensures forall i :: 0 <= i < |raw| ==>
              && rules[i].key == raw[i].key
              && rules[i].htmlDesc == raw[i].htmlDesc
              && rules[i].name == raw[i].name
              && rules[i].vulnerabilityProbability == raw[i].vulnerabilityProbability
  {
    seq(|raw|, i requires 0 <= i < |raw| => ProjectRule(raw[i]))
  }

  /** `hotspots.map(...)`: one record per raw hotspot, in order; the
      description repeats the message and the component is reduced to its
      path. */
  function ProjectHotspots(raw: seq<RawHotspot>): (hotspots: seq<Hotspot>)
    ensures |hotspots| == |raw|
    ensures forall i :: 0 <= i < |raw| ==>
              && hotspots[i].description == hotspots[i].message == raw[i].message
              && hotspots[i].key == raw[i].key
              && hotspots[i].status == raw[i].status
              && hotspots[i].line == raw[i].line
              && hotspots[i].vulnerabilityProbability == raw[i].vulnerabilityProbability
              && hotspots[i].component == ComponentPath(raw[i].component)
              && IsSuffix(hotspots[i].component, raw[i].component)
              && Free(hotspots[i].component, ':')
  {
    seq(|raw|, i requires 0 <= i < |raw| => ProjectHotspot(raw[i]))
  }
}
