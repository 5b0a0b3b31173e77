/** Reading names and optional fields out of API records. */
module Tags {
  import opened Geometry

  /** The tag CloudFormation puts on the resources it creates. */
  const SecondNameField: string := "aws:cloudformation:logical-id"
  const NameKey: string := "Name"

  datatype Tag = Tag(key: string, value: string)

  /** The value of the first of `keys` the record holds, or "" when it
      holds none of them. */
  function IfIn(resource: map<string, string>, keys: seq<string>): (v: string)
    ensures (forall i | 0 <= i < |keys| :: keys[i] !in resource) ==> v == ""
  {
    if |keys| == 0 then ""
    else if keys[0] in resource then resource[keys[0]]
    else IfIn(resource, keys[1..])
  }

  /** The first key present decides, whatever the later keys hold. */
  lemma {:induction false} IfInFirstPresent(resource: map<string, string>, keys: seq<string>, i: nat)
    requires i < |keys| && keys[i] in resource
    requires forall j | 0 <= j < i :: keys[j] !in resource
    ensures IfIn(resource, keys) == resource[keys[i]]
  {
    if i > 0 {
      IfInFirstPresent(resource, keys[1..], i - 1);
    }
  }

  /** The value of the first tag with the given key. */
  function FirstWithKey(tags: seq<Tag>, key: string): (v: Option<string>)
    ensures v.None? <==> forall i | 0 <= i < |tags| :: tags[i].key != key
  {
    if |tags| == 0 then None
    else if tags[0].key == key then Some(tags[0].value)
    else FirstWithKey(tags[1..], key)
  }

  lemma {:induction false} FirstWithKeyAt(tags: seq<Tag>, key: string, i: nat)
    requires i < |tags| && tags[i].key == key
    requires forall j | 0 <= j < i :: tags[j].key != key
    ensures FirstWithKey(tags, key) == Some(tags[i].value)
  {
    if i > 0 {
      FirstWithKeyAt(tags[1..], key, i - 1);
    }
  }

  /** A resource's display name: its first "Name" tag, else its first
      CloudFormation logical id, else "" (also when it has no tag list). */
  function NameFromTags(tags: Option<seq<Tag>>): (name: string)
    ensures tags.None? ==> name == ""
  {
    match tags
    case None => ""
    case Some(ts) =>
      match FirstWithKey(ts, NameKey)
      case Some(v) => v
      case None =>
        match FirstWithKey(ts, SecondNameField)
        case Some(v) => v
        case None => ""
  }

  /** A "Name" tag wins wherever it stands: the first one gives the name. */
  lemma NameTagWins(ts: seq<Tag>, i: nat)
    requires i < |ts| && ts[i].key == NameKey
    requires forall j | 0 <= j < i :: ts[j].key != NameKey
    ensures NameFromTags(Some(ts)) == ts[i].value
  {
    FirstWithKeyAt(ts, NameKey, i);
  }

  /** Without a "Name" tag, the first logical-id tag gives the name; without
      either the name is empty. */
  lemma NameFallback(ts: seq<Tag>)
    requires forall j | 0 <= j < |ts| :: ts[j].key != NameKey
    ensures (forall j | 0 <= j < |ts| :: ts[j].key != SecondNameField) ==> NameFromTags(Some(ts)) == ""
    ensures forall i | 0 <= i < |ts| && ts[i].key == SecondNameField && (forall j | 0 <= j < i :: ts[j].key != SecondNameField) ::
      NameFromTags(Some(ts)) == ts[i].value
  {
    forall i | 0 <= i < |ts| && ts[i].key == SecondNameField && (forall j | 0 <= j < i :: ts[j].key != SecondNameField)
      ensures NameFromTags(Some(ts)) == ts[i].value
    {
      FirstWithKeyAt(ts, SecondNameField, i);
    }
  }
}
