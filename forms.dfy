/** `DataSourceForm`: the form that edits a DataSource, with one extra field
    per parameter of the selected backend, and the mapping between those
    fields and the source's stored `parameters`. */
module Forms {
  import opened Common
  import opened PyStr
  import opened Data

  /** A backend's form field: its kind (the Django field class) and its
      initial value. */
  datatype FormField = FormField(kind: string, initial: Option<string>)

  /** A data backend: its parameters, by name, in declaration order. */
  datatype Backend = Backend(parameters: seq<(string, FormField)>)

  /** `registry['data_backends']`: the backend of each source type. */
  type Registry = map<string, Backend>

  /** A parameter dictionary has each name once. */
  predicate DistinctNames(ps: seq<(string, FormField)>)
  {
    forall i, j :: 0 <= i < j < |ps| ==> ps[i].0 != ps[j].0
  }

  predicate ValidRegistry(registry: Registry)
  {
    forall t :: t in registry ==> DistinctNames(registry[t].parameters)
  }

  /** The prefix that marks a backend parameter's form field. */
  const Prefix := "backend_"

  /** The form's own fields, in `Meta.fields` order. */
  const ModelFields: seq<string> :=
    ["name", "type", "source_url", "enabled", "description", "comments", "ignore_rules", "tags"]

  /** The fields of the 'Source' group, in display order. */
  const SourceGroup: seq<string> :=
    ["name", "type", "source_url", "enabled", "description", "tags", "ignore_rules"]

  /** `f'backend_{name}'`: the form field of a backend parameter. */
  function FieldName(name: string): (f: string)
    ensures StartsWith(f, Prefix)
    ensures |f| == |Prefix| + |name| && f[|Prefix|..] == name
  {
    Prefix + name
  }

  /** `name[8:]` on a prefixed field name: the parameter it stands for. */
  function ParameterName(f: string): (name: string)
    requires StartsWith(f, Prefix)
    ensures FieldName(name) == f
  {
    f[8..]
  }

  /** Two prefixed field names stand for the same parameter only when they
      are the same field. */
  lemma ParameterNameInjective(f: string, g: string)
    requires StartsWith(f, Prefix) && StartsWith(g, Prefix)
    ensures ParameterName(f) == ParameterName(g) <==> f == g
  {
    if ParameterName(f) == ParameterName(g) {
      assert FieldName(ParameterName(f)) == FieldName(ParameterName(g));
    }
  }

  lemma ModelFieldsUnprefixed()
    ensures forall k :: 0 <= k < |ModelFields| ==> !StartsWith(ModelFields[k], Prefix)
  {
    forall k | 0 <= k < |ModelFields|
      ensures !StartsWith(ModelFields[k], Prefix)
    {
      var f := ModelFields[k];
      if |Prefix| <= |f| {
        assert f[..|Prefix|][0] == f[0] != 'b';
      }
    }
  }

  /** The backend that governs the form: the bound data's `type` when it names
      a registered backend, else the initial data's `type` (when there is
      initial data and it names one), else the type field's default. */
  function SelectBackendType(isBound: bool, data: map<string, string>, initial: map<string, string>,
                             registry: Registry): (t: string)
    ensures t in registry || t == LocalType
    ensures isBound && "type" in data && data["type"] in registry ==> t == data["type"]
    ensures !(isBound && "type" in data && data["type"] in registry) && "type" in initial && initial["type"] in registry
            ==> t == initial["type"]
    ensures t != LocalType ==> t in registry && ((isBound && "type" in data && t == data["type"])
                                                 || ("type" in initial && t == initial["type"]))
  {
    if isBound && "type" in data && data["type"] in registry then data["type"]
    else if |initial| > 0 && "type" in initial && initial["type"] in registry then initial["type"]
    else LocalType
  }

  /** `backend.parameters` of the backend that governs the form. */
  function SelectedParameters(isBound: bool, data: map<string, string>, initial: map<string, string>,
                              registry: Registry): (ps: seq<(string, FormField)>)
    requires LocalType in registry
  {
    registry[SelectBackendType(isBound, data, initial, registry)].parameters
  }

  /** The field names `__init__` appends for the parameters `ps`, in order. */
  function BackendFieldNames(ps: seq<(string, FormField)>): (fs: seq<string>)
    ensures |fs| == |ps|
    ensures forall i :: 0 <= i < |ps| ==> fs[i] == FieldName(ps[i].0)
  {
    if ps == [] then [] else [FieldName(ps[0].0)] + BackendFieldNames(ps[1..])
  }

  /** A backend field as `__init__` installs it: when the source has stored
      parameters (a non-empty dictionary), its initial value is the stored
      value of the parameter, or nothing when that parameter is not stored. */
  function WithStoredInitial(field: FormField, name: string, stored: Option<map<string, string>>): (g: FormField)
    ensures g.kind == field.kind
    ensures stored.Some? && |stored.value| > 0 && name in stored.value ==> g.initial == Some(stored.value[name])
    ensures stored.Some? && |stored.value| > 0 && name !in stored.value ==> g.initial == None
    ensures stored.None? || |stored.value| == 0 ==> g == field
  {
    if stored.Some? && |stored.value| > 0 then
      field.(initial := if name in stored.value then Some(stored.value[name]) else None)
    else field
  }

  /** Every prefixed field among `names` has a cleaned value. */
  predicate HasCleanedValues(names: seq<string>, cleanedData: map<string, string>)
  {
    forall f :: f in names && StartsWith(f, Prefix) ==> f in cleanedData
  }

  /** The `parameters` dictionary `save` builds from the fields `names`: one
      entry per prefixed field, under the parameter it stands for, holding
      that field's cleaned value. */
  function SavedParameters(names: seq<string>, cleanedData: map<string, string>): (m: map<string, string>)
    requires HasCleanedValues(names, cleanedData)
    ensures forall n :: n in m <==> FieldName(n) in names
    ensures forall n :: n in m ==> FieldName(n) in cleanedData && m[n] == cleanedData[FieldName(n)]
  {
    if names == [] then map[]
    else
      var init := names[..|names| - 1];
      var last := names[|names| - 1];
      assert names == init + [last];
      var m := SavedParameters(init, cleanedData);
      SavedParametersStep(init, last, cleanedData, m);
      if StartsWith(last, Prefix) then m[ParameterName(last) := cleanedData[last]] else m
  }

  /** How one more field extends the dictionary `save` builds. */
  lemma SavedParametersStep(init: seq<string>, last: string, cleanedData: map<string, string>, m: map<string, string>)
    requires HasCleanedValues(init + [last], cleanedData)
    requires forall n :: n in m <==> FieldName(n) in init
    requires forall n :: n in m ==> FieldName(n) in cleanedData && m[n] == cleanedData[FieldName(n)]
    ensures StartsWith(last, Prefix) ==> last in cleanedData
    ensures var m' := if StartsWith(last, Prefix) then m[ParameterName(last) := cleanedData[last]] else m;
      forall n :: n in m' <==> FieldName(n) in init + [last]
    ensures var m' := if StartsWith(last, Prefix) then m[ParameterName(last) := cleanedData[last]] else m;
      forall n :: n in m' ==> FieldName(n) in cleanedData && m'[n] == cleanedData[FieldName(n)]
  {
    assert last in init + [last];
    forall n ensures FieldName(n) in init + [last] <==> FieldName(n) in init || FieldName(n) == last {
    }
    if StartsWith(last, Prefix) {
      forall n ensures FieldName(n) == last <==> n == ParameterName(last) {
        if FieldName(n) == last {
          assert n == FieldName(n)[|Prefix|..];
        }
      }
    }
  }

  lemma HasCleanedValuesOfPrefix(names: seq<string>, i: nat, cleanedData: map<string, string>)
    requires i <= |names| && HasCleanedValues(names, cleanedData)
    ensures HasCleanedValues(names[..i], cleanedData)
  {
    forall f | f in names[..i] ensures f in names {
    }
  }

  /** The form's fieldsets: a group title and its field names. */
  datatype Fieldset = Fieldset(title: string, fieldNames: seq<string>)

  class DataSourceForm {
    /** The source the form edits (`self.instance`). */
    const instance: DataSource
    /** The names of the form's fields, in order (`self.fields`). */
    var fields: seq<string>
    /** The definitions of the fields the backend added, by field name. */
    var backendDefs: map<string, FormField>
    /** `self.backend_fields`. */
    var backendFields: seq<string>

    /** `__init__`: select the backend, then add one field per parameter,
        taking its initial value from the source's stored parameters.
        The type field's default is the local type, whose backend is always
        registered. */
    constructor (registry: Registry, isBound: bool, data: map<string, string>, initial: map<string, string>,
                 instance: DataSource)
      requires ValidRegistry(registry) && LocalType in registry
      ensures this.instance == instance
      ensures var ps := SelectedParameters(isBound, data, initial, registry);
        backendFields == BackendFieldNames(ps) && fields == ModelFields + backendFields
      ensures forall f :: f in backendDefs <==> f in backendFields
      ensures var ps := SelectedParameters(isBound, data, initial, registry);
        forall k :: 0 <= k < |ps| ==>
          backendDefs[backendFields[k]] == WithStoredInitial(ps[k].1, ps[k].0, instance.parameters)
    {
      var ps := SelectedParameters(isBound, data, initial, registry);
      var stored := instance.parameters;
      var names: seq<string> := [];
      var defs: map<string, FormField> := map[];
      for i := 0 to |ps|
        invariant Installed(ps, i, names, defs, stored)
      {
        var (name, formField) := ps[i];
        var fieldName := Prefix + name;
        var installed := formField;
        if stored.Some? && |stored.value| > 0 {
          installed := formField.(initial := if name in stored.value then Some(stored.value[name]) else None);
        }
        InstalledStep(ps, i, names, defs, stored);
        names := names + [fieldName];
        defs := defs[fieldName := installed];
      }
      assert ps[..|ps|] == ps;
      this.instance := instance;
      backendFields := names;
      fields := ModelFields + names;
      backendDefs := defs;
    }

    /** `fieldsets`: the 'Source' group, then a 'Backend' group when the
        backend added fields. */
    function Fieldsets(): (groups: seq<Fieldset>)
      reads this
      ensures 1 <= |groups| <= 2 && groups[0] == Fieldset("Source", SourceGroup)
      ensures |groups| == 2 <==> backendFields != []
      ensures |groups| == 2 ==> groups[1] == Fieldset("Backend", backendFields)
    {
      var groups := [Fieldset("Source", SourceGroup)];
      if backendFields != [] then groups + [Fieldset("Backend", backendFields)] else groups
    }

    /** `save`: store, as the source's parameters, the cleaned value of every
        prefixed field under its parameter name (saving the row itself is not
        modelled). */
    method Save(cleanedData: map<string, string>)
      requires HasCleanedValues(fields, cleanedData)
      modifies instance
      ensures instance.parameters == Some(SavedParameters(fields, cleanedData))
      ensures instance.name == old(instance.name) && instance.sourceType == old(instance.sourceType)
      ensures instance.sourceUrl == old(instance.sourceUrl) && instance.status == old(instance.status)
      ensures instance.enabled == old(instance.enabled) && instance.ignoreRules == old(instance.ignoreRules)
      ensures instance.lastSynced == old(instance.lastSynced) && instance.datafiles == old(instance.datafiles)
    {
      var parameters: map<string, string> := map[];
      for i := 0 to |fields|
        modifies {}
        invariant HasCleanedValues(fields[..i], cleanedData)
        invariant parameters == SavedParameters(fields[..i], cleanedData)
      {
        var name := fields[i];
        HasCleanedValuesOfPrefix(fields, i + 1, cleanedData);
        assert fields[..i + 1][..i] == fields[..i];
        if StartsWith(name, Prefix) {
          parameters := parameters[name[8..] := cleanedData[name]];
        }
      }
      assert fields[..|fields|] == fields;
      instance.parameters := Some(parameters);
    }
  }

  /** The loop of `__init__` after the first `i` parameters: their fields
      are named, in order, and installed. */
  ghost predicate Installed(ps: seq<(string, FormField)>, i: nat, names: seq<string>,
                            defs: map<string, FormField>, stored: Option<map<string, string>>)
  {
    && i <= |ps| && |names| == i
    && (forall k :: 0 <= k < i ==> names[k] == FieldName(ps[k].0))
    && (forall f :: f in defs <==> f in names)
    && (forall k :: 0 <= k < i ==> defs[names[k]] == WithStoredInitial(ps[k].1, ps[k].0, stored))
  }

  lemma InstalledStep(ps: seq<(string, FormField)>, i: nat, names: seq<string>,
                      defs: map<string, FormField>, stored: Option<map<string, string>>)
    requires DistinctNames(ps) && i < |ps| && Installed(ps, i, names, defs, stored)
    ensures Installed(ps, i + 1, names + [FieldName(ps[i].0)],
                      defs[FieldName(ps[i].0) := WithStoredInitial(ps[i].1, ps[i].0, stored)], stored)
  {
    FieldNameDistinct(ps, i);
  }

  /** A later parameter's field is not among the earlier ones. */
  lemma FieldNameDistinct(ps: seq<(string, FormField)>, i: nat)
    requires DistinctNames(ps) && i < |ps|
    ensures forall k :: 0 <= k < i ==> FieldName(ps[k].0) != FieldName(ps[i].0)
  {
    forall k | 0 <= k < i ensures FieldName(ps[k].0) != FieldName(ps[i].0) {
      assert ps[k].0 != ps[i].0;
    }
  }

  /** The names of a backend's parameters. */
  function ParameterNames(ps: seq<(string, FormField)>): set<string>
  {
    set k | 0 <= k < |ps| :: ps[k].0
  }

  /** `save` inverts the naming of `__init__`: on a form built for a backend,
      the stored parameters are exactly that backend's parameters, each
      holding the cleaned value of its own field. */
  lemma SaveStoresBackendParameters(ps: seq<(string, FormField)>, cleanedData: map<string, string>)
    requires HasCleanedValues(ModelFields + BackendFieldNames(ps), cleanedData)
    ensures var m := SavedParameters(ModelFields + BackendFieldNames(ps), cleanedData);
      m.Keys == ParameterNames(ps) && forall k :: 0 <= k < |ps| ==> m[ps[k].0] == cleanedData[FieldName(ps[k].0)]
  {
    var m := SavedParameters(ModelFields + BackendFieldNames(ps), cleanedData);
    forall n ensures n in m <==> n in ParameterNames(ps) {
      FieldOfForm(ps, n);
    }
    forall k | 0 <= k < |ps| ensures ps[k].0 in m {
      assert ps[k].0 in ParameterNames(ps);
    }
  }

  /** A parameter's field is among the form's fields exactly when the
      parameter is one of the backend's. */
  lemma FieldOfForm(ps: seq<(string, FormField)>, n: string)
    ensures FieldName(n) in ModelFields + BackendFieldNames(ps) <==> n in ParameterNames(ps)
  {
    NotAModelField(n);
    assert FieldName(n) in ModelFields + BackendFieldNames(ps) <==> FieldName(n) in BackendFieldNames(ps);
    if FieldName(n) in BackendFieldNames(ps) {
      var k :| 0 <= k < |ps| && BackendFieldNames(ps)[k] == FieldName(n);
      assert n == FieldName(n)[|Prefix|..] == FieldName(ps[k].0)[|Prefix|..] == ps[k].0;
    }
    if n in ParameterNames(ps) {
      var k :| 0 <= k < |ps| && ps[k].0 == n;
      assert BackendFieldNames(ps)[k] == FieldName(n);
    }
  }

  lemma NotAModelField(n: string)
    ensures FieldName(n) !in ModelFields
  {
    ModelFieldsUnprefixed();
  }

  /** A form opened again on the source it saved shows, in each backend
      field, the value that was saved for it. */
  lemma ReopenedFormShowsSavedValues(ps: seq<(string, FormField)>, cleanedData: map<string, string>)
    requires ps != []
    requires HasCleanedValues(ModelFields + BackendFieldNames(ps), cleanedData)
    ensures var stored := Some(SavedParameters(ModelFields + BackendFieldNames(ps), cleanedData));
      forall k :: 0 <= k < |ps| ==>
        WithStoredInitial(ps[k].1, ps[k].0, stored).initial == Some(cleanedData[FieldName(ps[k].0)])
  {
    SaveStoresBackendParameters(ps, cleanedData);
    assert ps[0].0 in ParameterNames(ps);
  }
}
