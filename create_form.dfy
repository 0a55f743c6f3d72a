/**
 * The cross-field validators of the create-container form. Each validator is
 * attached to one field, receives that field's text and may read any other
 * field's text; the form's fields are given as a map from field name to text.
 */
module CreateContainerForm {

  /** Field name to current text. */
  type Fields = map<string, string>

  /** The validators the form declares, one per validated field. */
  datatype Validator = HostPortGiven | PortGiven | HostVolumeGiven | VolumeGiven | ImageGiven

  /** The fields every validator of the form may read. */
  predicate HasValidatedFields(fields: Fields)
  {
    "HostPort" in fields && "Port" in fields && "HostVolume" in fields && "Volume" in fields && "Image" in fields
  }

  /** The field a validator is attached to. */
  function FieldOf(v: Validator): string
  {
    match v
    case HostPortGiven => "HostPort"
    case PortGiven => "Port"
    case HostVolumeGiven => "HostVolume"
    case VolumeGiven => "Volume"
    case ImageGiven => "Image"
  }

  /** The message shown when the validator fails. */
  function Message(v: Validator): string
  {
    match v
    case HostPortGiven => "no specified HostPort"
    case PortGiven => "no specified Port"
    case HostVolumeGiven => "no specified HostVolume"
    case VolumeGiven => "no specified Volume"
    case ImageGiven => "no specified Image"
  }

  /** The validators in the order their fields are declared on the form. */
  const Validators: seq<Validator> := [HostPortGiven, PortGiven, HostVolumeGiven, VolumeGiven, ImageGiven]

  /** The validator's closure applied to the text `value` of its own field. */
  predicate Passes(v: Validator, value: string, fields: Fields)
    requires HasValidatedFields(fields)
    ensures value != "" ==> Passes(v, value, fields)
    ensures v != ImageGiven && !Passes(v, value, fields) ==> exists f :: f in fields && f != FieldOf(v) && fields[f] != ""
  {
    match v
    case HostPortGiven => !(value == "" && fields["Port"] != "")
    case PortGiven => !(value == "" && fields["HostPort"] != "")
    case HostVolumeGiven => !(value == "" && fields["Volume"] != "")
    case VolumeGiven => !(fields["HostVolume"] != "" && value == "")
    case ImageGiven => value != ""
  }

  /** The validator run on the form's current text for its field. */
  predicate Holds(v: Validator, fields: Fields)
    requires HasValidatedFields(fields)
  {
    Passes(v, fields[FieldOf(v)], fields)
  }

  /** Every validator of the form passes. */
  predicate AllHold(fields: Fields)
    requires HasValidatedFields(fields)
  {
    forall i :: 0 <= i < |Validators| ==> Holds(Validators[i], fields)
  }

  /** HostPort and Port both pass exactly when both are empty or both are given. */
  lemma PortsPaired(fields: Fields)
    requires HasValidatedFields(fields)
    ensures Holds(HostPortGiven, fields) && Holds(PortGiven, fields)
        <==> (fields["HostPort"] == "" <==> fields["Port"] == "")
  {
  }

  /** HostVolume and Volume both pass exactly when both are empty or both are given. */
  lemma VolumesPaired(fields: Fields)
    requires HasValidatedFields(fields)
    ensures Holds(HostVolumeGiven, fields) && Holds(VolumeGiven, fields)
        <==> (fields["HostVolume"] == "" <==> fields["Volume"] == "")
  {
  }

  /** The Image validator passes exactly when Image is given. */
  lemma ImageRequired(fields: Fields)
    requires HasValidatedFields(fields)
    ensures Holds(ImageGiven, fields) <==> fields["Image"] != ""
  {
  }

  /** The form's validators all pass exactly when both pairs match up and Image is given. */
  lemma AllHoldCharacterised(fields: Fields)
    requires HasValidatedFields(fields)
    ensures AllHold(fields)
        <==> && (fields["HostPort"] == "" <==> fields["Port"] == "")
             && (fields["HostVolume"] == "" <==> fields["Volume"] == "")
             && fields["Image"] != ""
  {
    if !AllHold(fields) {
      var i :| 0 <= i < |Validators| && !Holds(Validators[i], fields);
      assert i < 5;
    } else {
      assert Holds(Validators[0], fields) && Holds(Validators[1], fields) && Holds(Validators[2], fields);
      assert Holds(Validators[3], fields) && Holds(Validators[4], fields);
    }
  }

  /** A port without a host port fails, naming HostPort; an empty pair passes. */
  lemma PortExample()
    ensures
      var given := map["HostPort" := "", "Port" := "8080", "HostVolume" := "", "Volume" := "", "Image" := "alpine"];
      var empty := given["Port" := ""];
      && HasValidatedFields(given) && HasValidatedFields(empty)
      && !Holds(HostPortGiven, given) && Message(HostPortGiven) == "no specified HostPort"
      && Holds(PortGiven, given)
      && AllHold(empty)
  {
    var empty := map["HostPort" := "", "Port" := "8080", "HostVolume" := "", "Volume" := "", "Image" := "alpine"]["Port" := ""];
    AllHoldCharacterised(empty);
  }
}
