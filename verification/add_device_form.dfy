/** The add-device dialog: per-field validation on submit, the hand-off of
    an accepted form to the dashboard, and the MAC field's change handler. */
module AddDeviceForm {
  import opened Wrappers
  import opened Seqs
  import opened Text
  import opened MacAddress
  import opened Devices

  /** The fields that can carry an error message. */
  datatype Field = NameField | ModelField | MacField | LocationField | TypeField

  /** The form's state: every field as typed, status from a two-way select. */
  datatype FormData = FormData(
    name: string,
    model: string,
    macAddress: string,
    location: string,
    status: Status,
    deviceType: string,
    description: string)

  /** The initial form, restored after a successful submission. */
  const EmptyForm: FormData := FormData("", "", "", "", Offline, "", "")

  /** `Record<string, string>` of error messages; a cleared message is kept as `""`. */
  type Errors = map<Field, string>

  datatype ModalState = ModalState(form: FormData, errors: Errors)

  const InitialModal: ModalState := ModalState(EmptyForm, map[])

  const NameRequired: string := "Nome é obrigatório"
  const ModelRequired: string := "Modelo é obrigatório"
  const MacRequired: string := "MAC Address é obrigatório"
  const MacInvalid: string := "Formato de MAC Address inválido (ex: 00:1B:44:11:3A:B7)"
  const LocationRequired: string := "Localização é obrigatória"
  const TypeRequired: string := "Tipo é obrigatório"

  /** `!value.trim()` */
  predicate IsBlank(s: string)
  {
    Trim(s) == ""
  }

  /** A valid address is never blank, so the "required" branch and the
      "invalid format" branch for the MAC never overlap. */
  lemma ValidAddressIsNotBlank(mac: string)
    ensures ValidateMacAddress(mac) ==> !IsBlank(mac)
  {
    ValidateMacAddressIff(mac);
    if ValidateMacAddress(mac) {
      assert !IsJsWhitespace(mac[0]);
    }
  }

  /** The outcome of each test `handleSubmit` performs on the form. */
  datatype Checks = Checks(
    nameBlank: bool,
    modelBlank: bool,
    macBlank: bool,
    macValid: bool,
    locationBlank: bool,
    typeBlank: bool)

  function ChecksOf(f: FormData): Checks
  {
    Checks(IsBlank(f.name), IsBlank(f.model), IsBlank(f.macAddress),
      ValidateMacAddress(f.macAddress), IsBlank(f.location), IsBlank(f.deviceType))
  }

  const AllFields: set<Field> := {NameField, ModelField, MacField, LocationField, TypeField}

  /** The message one `if` of `handleSubmit` records for field `k`, if any;
      the MAC's "required" test comes before its format test. */
  function FieldError(c: Checks, k: Field): Option<string>
  {
    match k
    case NameField => if c.nameBlank then Some(NameRequired) else None
    case ModelField => if c.modelBlank then Some(ModelRequired) else None
    case MacField =>
      if c.macBlank then Some(MacRequired)
      else if !c.macValid then Some(MacInvalid)
      else None
    case LocationField => if c.locationBlank then Some(LocationRequired) else None
    case TypeField => if c.typeBlank then Some(TypeRequired) else None
  }

  /** The map of every message the tests produce. */
  function ErrorsFor(c: Checks): (errors: Errors)
    ensures forall k :: k in errors <==> FieldError(c, k).Some?
    ensures forall k :: k in errors ==> errors[k] == FieldError(c, k).value
  {
    map k | k in AllFields && FieldError(c, k).Some? :: FieldError(c, k).value
  }

  /** The error map `handleSubmit` builds. Name, model, location and type get
      their "required" message iff blank; the MAC gets "required" when blank
      and "invalid format" when it fails the pattern, so it has an entry iff
      it is not a valid address. Description and status are never checked. */
  function ValidateForm(f: FormData): (errors: Errors)
    ensures NameField in errors <==> IsBlank(f.name)
    ensures ModelField in errors <==> IsBlank(f.model)
    ensures LocationField in errors <==> IsBlank(f.location)
    ensures TypeField in errors <==> IsBlank(f.deviceType)
    ensures MacField in errors <==> !ValidateMacAddress(f.macAddress)
    ensures NameField in errors ==> errors[NameField] == NameRequired
    ensures ModelField in errors ==> errors[ModelField] == ModelRequired
    ensures LocationField in errors ==> errors[LocationField] == LocationRequired
    ensures TypeField in errors ==> errors[TypeField] == TypeRequired
    ensures MacField in errors ==>
      errors[MacField] == (if IsBlank(f.macAddress) then MacRequired else MacInvalid)
  {
    ValidAddressIsNotBlank(f.macAddress);
    ErrorsFor(ChecksOf(f))
  }

  /** Every recorded message is non-empty, so each error displays. */
  lemma ErrorMessagesNonEmpty(f: FormData, k: Field)
    ensures k in ValidateForm(f) ==> |ValidateForm(f)[k]| > 0
  {
    assert |NameRequired| > 0 && |ModelRequired| > 0 && |MacRequired| > 0;
    assert |MacInvalid| > 0 && |LocationRequired| > 0 && |TypeRequired| > 0;
  }

  /** The form is accepted iff every required field is filled and the MAC is valid. */
  predicate Acceptable(f: FormData)
  {
    !IsBlank(f.name) && !IsBlank(f.model) && !IsBlank(f.location) && !IsBlank(f.deviceType)
    && ValidateMacAddress(f.macAddress)
  }

  lemma NoErrorsIffPassing(c: Checks)
    ensures |ErrorsFor(c)| == 0 <==>
      !c.nameBlank && !c.modelBlank && !c.macBlank && c.macValid && !c.locationBlank && !c.typeBlank
  {
    var e := ErrorsFor(c);
    if |e| == 0 {
      assert e.Keys == {};
      assert NameField !in e && ModelField !in e && MacField !in e;
      assert LocationField !in e && TypeField !in e;
    } else {
      var k :| k in e;
    }
  }

  lemma NoErrorsIffAcceptable(f: FormData)
    ensures |ValidateForm(f)| == 0 <==> Acceptable(f)
  {
    ValidAddressIsNotBlank(f.macAddress);
    NoErrorsIffPassing(ChecksOf(f));
  }

  /** Description and status never affect validation. */
  lemma ValidationIgnoresDescriptionAndStatus(f: FormData, description: string, status: Status)
    ensures ValidateForm(f.(description := description, status := status)) == ValidateForm(f)
  {
    assert ChecksOf(f.(description := description, status := status)) == ChecksOf(f);
  }

  /** What the dashboard receives from `onAdd(formData)`: the fields exactly
      as typed (untrimmed), the description as given, no manufacturer. A
      draft of an acceptable form has a valid MAC address and no blank
      required field. */
  function DraftOf(f: FormData): (d: DeviceDraft)
    ensures Acceptable(f) ==> ValidateMacAddress(d.macAddress)
    ensures Acceptable(f) ==> !IsBlank(d.name) && !IsBlank(d.model) && !IsBlank(d.location) && !IsBlank(d.deviceType)
    ensures d.name == f.name && d.model == f.model && d.macAddress == f.macAddress
    ensures d.location == f.location && d.status == f.status && d.deviceType == f.deviceType
    ensures d.manufacturer.None? && d.description == Some(f.description)
  {
    DeviceDraft(f.name, f.model, f.macAddress, f.location, f.status, None, f.deviceType, Some(f.description))
  }

  /** What a submission does: which draft, if any, reaches `onAdd`, the
      dialog's next state, and whether `onClose` was called. */
  datatype SubmitOutcome = SubmitOutcome(added: Option<DeviceDraft>, next: ModalState, closed: bool)

  /** `handleSubmit`. `onAdd` is called iff the error map is empty; then the
      form resets, errors clear and the dialog asks to close. Otherwise the
      form is kept and the new error map replaces the old one. */
  function Submit(st: ModalState): (o: SubmitOutcome)
    ensures o.added.Some? <==> Acceptable(st.form)
    ensures o.added.Some? ==> o.added.value == DraftOf(st.form) && o.next == InitialModal && o.closed
    ensures o.added.None? ==> o.next.form == st.form && o.next.errors == ValidateForm(st.form) && !o.closed
    ensures o.added.None? ==> |o.next.errors| > 0
  {
    var errors := ValidateForm(st.form);
    NoErrorsIffAcceptable(st.form);
    if |errors| > 0 then SubmitOutcome(None, ModalState(st.form, errors), false)
    else SubmitOutcome(Some(DraftOf(st.form)), ModalState(EmptyForm, map[]), true)
  }

  /** An accepted draft carries a valid MAC address. */
  lemma AcceptedDraftHasValidMac(st: ModalState)
    requires Submit(st).added.Some?
    ensures ValidateMacAddress(Submit(st).added.value.macAddress)
  {
  }

  /** The value the MAC field stores for raw input: formatted, then upper-cased. */
  function NormalizeMac(raw: string): (mac: string)
    ensures |mac| <= 17
    ensures forall i :: 0 <= i < |mac| ==> IsUpperHexDigit(mac[i]) || mac[i] == ':'
    ensures ValidateMacAddress(mac) <==> |HexOnly(raw)| >= 12
    ensures HexOnly(mac) == ToUpper(Take(HexOnly(raw), 12))
    ensures forall i :: 0 <= i < |mac| ==> (mac[i] == ':' <==> i % 3 == 2)
    ensures |mac| == 0 || mac[|mac| - 1] != ':'
  {
    FormatValidatesIff(raw);
    HexOnlyToUpper(FormatMacAddress(raw));
    ToUpperColons(FormatMacAddress(raw));
    ToUpper(FormatMacAddress(raw))
  }

  /** Re-normalizing a stored value leaves it unchanged. */
  lemma NormalizeMacIdempotent(raw: string)
    ensures NormalizeMac(NormalizeMac(raw)) == NormalizeMac(raw)
  {
    var c := Take(HexOnly(raw), 12);
    var u := ToUpper(c);
    FormatIsPairsOfFirstTwelve(raw);
    ToUpperPairs(c);
    assert NormalizeMac(raw) == Pairs(u);
    assert forall i :: 0 <= i < |u| ==> IsHexDigit(u[i]);
    HexOnlyOfPairs(u);
    FormatIsPairsOfFirstTwelve(Pairs(u));
    assert Take(u, 12) == u;
    ToUpperPairs(u);
    ToUpperIdempotent(c);
  }

  /** `if (errors.k) setErrors(prev => ({ ...prev, k: '' }))`: a non-empty
      message for `k` becomes `""` with its key kept; an absent or already
      empty one is left alone, and so is every other message. */
  function ClearError(errors: Errors, k: Field): (cleared: Errors)
    ensures k !in cleared || cleared[k] == ""
    ensures cleared.Keys == errors.Keys
    ensures forall j :: j in errors && j != k ==> cleared[j] == errors[j]
  {
    if k in errors && errors[k] != "" then errors[k := ""] else errors
  }

  /** `handleMacAddressChange`: the field stores `NormalizeMac(raw)`; a
      non-empty MAC error is replaced by `""`; nothing else changes. */
  function ChangeMacAddress(st: ModalState, raw: string): (next: ModalState)
    ensures next.form == st.form.(macAddress := NormalizeMac(raw))
    ensures forall j :: j != MacField ==> FieldValue(next.form, j) == FieldValue(st.form, j)
    ensures MacField !in next.errors || next.errors[MacField] == ""
    ensures next.errors.Keys == st.errors.Keys
    ensures forall k :: k in st.errors && k != MacField ==> next.errors[k] == st.errors[k]
  {
    ChangeField(st, MacField, raw)
  }

  /** The value the form holds for a field that can carry an error. */
  function FieldValue(f: FormData, k: Field): string
  {
    match k
    case NameField => f.name
    case ModelField => f.model
    case MacField => f.macAddress
    case LocationField => f.location
    case TypeField => f.deviceType
  }

  /** `setFormData(prev => ({ ...prev, k: value }))` for one of those fields. */
  function WithField(f: FormData, k: Field, value: string): (g: FormData)
    ensures FieldValue(g, k) == value
    ensures forall j :: j != k ==> FieldValue(g, j) == FieldValue(f, j)
    ensures g.status == f.status && g.description == f.description
  {
    match k
    case NameField => f.(name := value)
    case ModelField => f.(model := value)
    case MacField => f.(macAddress := value)
    case LocationField => f.(location := value)
    case TypeField => f.(deviceType := value)
  }

  /** The change handler of field `k`: the name, model and location inputs
      and the type select store the value as given, the MAC input stores
      `NormalizeMac(value)`; each clears a non-empty message of its own
      field and leaves every other field and message alone. */
  function ChangeField(st: ModalState, k: Field, value: string): (next: ModalState)
    ensures FieldValue(next.form, k) == (if k == MacField then NormalizeMac(value) else value)
    ensures forall j :: j != k ==> FieldValue(next.form, j) == FieldValue(st.form, j)
    ensures next.form.status == st.form.status && next.form.description == st.form.description
    ensures k !in next.errors || next.errors[k] == ""
    ensures next.errors.Keys == st.errors.Keys
    ensures forall j :: j in st.errors && j != k ==> next.errors[j] == st.errors[j]
  {
    var stored := if k == MacField then NormalizeMac(value) else value;
    ModalState(WithField(st.form, k, stored), ClearError(st.errors, k))
  }

  /** After editing a text field, submission reports that field iff the new
      value is blank, whatever the other fields hold. */
  lemma ChangedFieldRequiredIff(st: ModalState, k: Field, value: string)
    requires k != MacField
    ensures k in ValidateForm(ChangeField(st, k, value).form) <==> IsBlank(value)
  {
  }

  /** The status select: `setFormData(prev => ({ ...prev, status: value }))`,
      with no error to clear. */
  function ChangeStatus(st: ModalState, status: Status): (next: ModalState)
    ensures next.form.status == status
    ensures forall k :: FieldValue(next.form, k) == FieldValue(st.form, k)
    ensures next.form.description == st.form.description
    ensures next.errors == st.errors
  {
    st.(form := st.form.(status := status))
  }

  /** The description textarea: a plain assignment, with no error to clear. */
  function ChangeDescription(st: ModalState, description: string): (next: ModalState)
    ensures next.form.description == description
    ensures forall k :: FieldValue(next.form, k) == FieldValue(st.form, k)
    ensures next.form.status == st.form.status
    ensures next.errors == st.errors
  {
    st.(form := st.form.(description := description))
  }

  /** Neither the status nor the description handler changes what a
      submission reports. */
  lemma StatusAndDescriptionKeepValidation(st: ModalState, status: Status, description: string)
    ensures ValidateForm(ChangeStatus(st, status).form) == ValidateForm(st.form)
    ensures ValidateForm(ChangeDescription(st, description).form) == ValidateForm(st.form)
  {
    ValidationIgnoresDescriptionAndStatus(st.form, st.form.description, status);
    ValidationIgnoresDescriptionAndStatus(st.form, description, st.form.status);
  }

  /** After a change event, submission reports a MAC error iff fewer than
      twelve hex digits were entered, and never the "required" message unless
      none was. */
  lemma MacErrorAfterChange(st: ModalState, raw: string)
    ensures var f := ChangeMacAddress(st, raw).form;
      (MacField in ValidateForm(f) <==> |HexOnly(raw)| < 12)
      && (MacField in ValidateForm(f) && ValidateForm(f)[MacField] == MacRequired ==> |HexOnly(raw)| == 0)
  {
    var f := ChangeMacAddress(st, raw).form;
    var mac := f.macAddress;
    if |HexOnly(raw)| > 0 {
      assert |mac| > 0;
      assert !IsJsWhitespace(mac[0]);
    }
  }
}
