/**
 * The registration form's state updates (frontend/src/pages/Register.js):
 * the `handleChange` update addressed by an input's `name`, which may be a
 * dotted `parent.child` path, and the password-confirmation guard.
 */
module RegisterForm {
  import opened Common
  import opened Text

  /** A top-level form field: a string, or a nested object of strings. */
  datatype FieldValue = Str(s: string) | Obj(entries: map<string, string>)

  type Form = map<string, FieldValue>

  /** The text before the first `.` (all of it when there is none). */
  function Segment(s: string): (r: string)
    ensures '.' !in r
    ensures IsPrefix(r, s)
    ensures |r| == |s| || s[|r|] == '.'
    decreases |s|
  {
    if s == [] || s[0] == '.' then "" else [s[0]] + Segment(s[1..])
  }

  /** `const [parent, child] = name.split('.')`: the first two segments;
      any further segments are dropped. */
  function DottedPath(name: string): (r: (string, string))
    requires '.' in name
    ensures '.' !in r.0 && '.' !in r.1
    ensures IsPrefix(r.0 + "." + r.1, name)
    ensures |r.0| + 1 + |r.1| == |name| || name[|r.0| + 1 + |r.1|] == '.'
  {
    var parent := Segment(name);
    var rest := name[|parent| + 1..];
    var child := Segment(rest);
    assert (parent + "." + child) == name[..|parent| + 1 + |child|];
    (parent, child)
  }

  /** Splitting `parent.child` and any further `.tail` gives back the first
      two segments. */
  lemma DottedPathOfJoin(parent: string, child: string, tail: string)
    requires '.' !in parent && '.' !in child
    requires tail == "" || tail[0] == '.'
    ensures '.' in parent + "." + child + tail
    ensures DottedPath(parent + "." + child + tail) == (parent, child)
  {
    var name := parent + "." + child + tail;
    assert name[|parent|] == '.';
    var r := DottedPath(name);
    SegmentOfPrefix(parent, name);
    SegmentOfPrefix(child, name[|parent| + 1..]);
  }

  /** A dot-free prefix followed by a dot or the end is the first segment. */
  lemma SegmentOfPrefix(p: string, s: string)
    requires '.' !in p && IsPrefix(p, s)
    requires |p| == |s| || s[|p|] == '.'
    ensures Segment(s) == p
  {
    var r := Segment(s);
  }

  /** The char-index entries that spreading a string produces. */
  function CharEntries(s: string): map<string, string>
    decreases |s|
  {
    if s == [] then map[] else CharEntries(s[..|s| - 1])[DecimalString(|s| - 1) := [s[|s| - 1]]]
  }

  /** `{ ...prev[parent] }`: an object's entries; nothing for a missing
      field; a string spreads into its characters. */
  function Spread(v: Option<FieldValue>): map<string, string>
  {
    match v
    case None => map[]
    case Some(Obj(m)) => m
    case Some(Str(s)) => CharEntries(s)
  }

  function Get(form: Form, k: string): Option<FieldValue>
  {
    if k in form then Some(form[k]) else None
  }

  /** `handleChange`: a dotted name replaces one child of its parent object
      and keeps the parent's other children; a plain name replaces that
      field. Every other top-level field is unchanged. */
  function HandleChange(form: Form, name: string, value: string): (r: Form)
    ensures '.' !in name ==>
      && r.Keys == form.Keys + {name}
      && r[name] == Str(value)
    ensures '.' in name ==>
      var (parent, child) := DottedPath(name);
      && r.Keys == form.Keys + {parent}
      && r[parent].Obj?
      && r[parent].entries.Keys == Spread(Get(form, parent)).Keys + {child}
      && r[parent].entries[child] == value
      && (forall k :: k in Spread(Get(form, parent)) && k != child ==>
            r[parent].entries[k] == Spread(Get(form, parent))[k])
    ensures forall k :: k in form && k != (if '.' in name then DottedPath(name).0 else name) ==> r[k] == form[k]
  {
    if '.' in name then
      var (parent, child) := DottedPath(name);
      form[parent := Obj(Spread(Get(form, parent))[child := value])]
    else
      form[name := Str(value)]
  }

  /** With an `address` object in the form, editing `address.city` sets
      the city and keeps the street. */
  lemma EditNestedField(form: Form)
    requires "address" in form && form["address"].Obj?
    requires "street" in form["address"].entries
    ensures var r := HandleChange(form, "address.city", "Paris");
      && "address" in r && r["address"].Obj?
      && "city" in r["address"].entries && "street" in r["address"].entries
      && r["address"].entries["city"] == "Paris"
      && r["address"].entries["street"] == form["address"].entries["street"]
  {
    DottedPathOfJoin("address", "city", "");
    assert "address" + "." + "city" + "" == "address.city";
  }

  /** The outcome of `handleSubmit`'s guard. */
  datatype Submit = Alerted(message: string) | Posted(body: Form)

  /** `formData.password !== formData.confirmPassword` is false: two equal
      strings, or both fields missing (`undefined`). Distinct objects are
      never identical. */
  predicate StrictlyEqual(a: Option<FieldValue>, b: Option<FieldValue>)
  {
    (a.None? && b.None?) || (a.Some? && b.Some? && a.value.Str? && b.value.Str? && a.value.s == b.value.s)
  }

  /** `handleSubmit`: a mismatch raises the alert and sends nothing;
      otherwise the whole form is posted. */
  function HandleSubmit(form: Form): (r: Submit)
    ensures r.Posted? <==> StrictlyEqual(Get(form, "password"), Get(form, "confirmPassword"))
    ensures r.Posted? ==> r.body == form
    ensures r.Alerted? ==> r.message == "Passwords do not match"
  {
    if !StrictlyEqual(Get(form, "password"), Get(form, "confirmPassword")) then Alerted("Passwords do not match")
    else Posted(form)
  }

  /** Typing the same password into both inputs lets the form be posted;
      typing different ones raises the alert. */
  lemma TypedPasswordsDecideSubmit(form: Form, p: string, q: string)
    ensures var f := HandleChange(HandleChange(form, "password", p), "confirmPassword", q);
      HandleSubmit(f).Posted? <==> p == q
  {
    assert '.' !in "password" && '.' !in "confirmPassword";
  }
}
