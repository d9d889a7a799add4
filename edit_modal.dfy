/**
 * The edit form (`EditModal`): a scratch copy of one record's editable
 * fields, updated input by input, and merged over the record on save.
 */
module EditModal {
  import opened Text
  import opened Records

  /**
   * `editedUserData`: copies of `name` and `location`, the portrait URL as
   * `image`, `email`, `cell`, and any other top-level member an input has
   * set (`extra`).
   */
  datatype Scratch = Scratch(
    name: Dict,
    image: string,
    email: string,
    cell: string,
    location: Dict,
    extra: Dict)

  /** The string-valued top-level member `s[k]` of the scratch copy, or None. */
  function ScratchMember(s: Scratch, k: string): Option<string>
  {
    if k == "image" then Some(s.image)
    else if k == "email" then Some(s.email)
    else if k == "cell" then Some(s.cell)
    else if k in ObjectKeys || k !in s.extra then None
    else Some(s.extra[k])
  }

  /**
   * The initial scratch copy of `user`: its `name` and `location`, its
   * large portrait as `image`, its `email` and `cell`, and nothing else.
   */
  function InitScratch(user: User): (s: Scratch)
    ensures s.name == user.name && s.location == user.location
    ensures forall k ::
              ScratchMember(s, k) ==
                if k == "image" then Some(user.picture.large)
                else if k == "email" || k == "cell" then Member(user, k)
                else None
  {
    Scratch(user.name, user.picture.large, user.email, user.cell, user.location, map[])
  }

  /** A change event of the form: a chosen image file, or a text input's name and value. */
  datatype ChangeEvent = FileChosen | FieldChange(inputName: string, value: string)

  /**
   * Input names the model can apply: a nested `name.*` or `location.*`
   * path, or a top-level member that is not one of the record's objects.
   */
  predicate Applicable(inputName: string)
  {
    "name." <= inputName || "location." <= inputName || inputName !in ObjectKeys
  }

  /** `{ ...prev, [key]: value }` for a string-valued top-level member. */
  function SetTop(s: Scratch, key: string, value: string): (r: Scratch)
    requires key !in ObjectKeys
    ensures r.name == s.name && r.location == s.location
    ensures forall k :: ScratchMember(r, k) == if k == key then Some(value) else ScratchMember(s, k)
  {
    if key == "image" then s.(image := value)
    else if key == "email" then s.(email := value)
    else if key == "cell" then s.(cell := value)
    else s.(extra := s.extra[key := value])
  }

  /** The text input branches of `handleInputChange`. */
  function ApplyInput(s: Scratch, inputName: string, value: string): Scratch
    requires Applicable(inputName)
  {
    if "name." <= inputName then
      s.(name := s.name[UpToDot(inputName[|"name."|..]) := value])
    else if "location." <= inputName then
      s.(location := s.location[UpToDot(inputName[|"location."|..]) := value])
    else
      SetTop(s, inputName, value)
  }

  /** `d'` is `d` with member `f` set to `v` and every other member kept. */
  ghost predicate SetsOnly(d: Dict, d': Dict, f: string, v: string)
  {
    && d'.Keys == d.Keys + {f}
    && d'[f] == v
    && forall g :: g in d && g != f ==> d'[g] == d[g]
  }

  /** Two scratch copies agree on every string-valued top-level member. */
  ghost predicate SameMembers(s: Scratch, s': Scratch)
  {
    forall k :: ScratchMember(s, k) == ScratchMember(s', k)
  }

  /**
   * A `name.f` input changes only `name[f]`, a `location.f` input only
   * `location[f]`, and any other input only its own top-level member.
   */
  lemma ApplyInputSpec(s: Scratch, inputName: string, value: string)
    requires Applicable(inputName)
    ensures var r := ApplyInput(s, inputName, value);
      if "name." <= inputName then
        && SetsOnly(s.name, r.name, UpToDot(inputName[5..]), value)
        && r.location == s.location && SameMembers(r, s)
      else if "location." <= inputName then
        && SetsOnly(s.location, r.location, UpToDot(inputName[9..]), value)
        && r.name == s.name && SameMembers(r, s)
      else
        && r.name == s.name && r.location == s.location
        && ScratchMember(r, inputName) == Some(value)
        && forall k :: k != inputName ==> ScratchMember(r, k) == ScratchMember(s, k)
  {
  }

  /** The form's own inputs `name.first`, `location.city`, ... address the field after the dot. */
  lemma FieldOfInputName(prefix: string, f: string)
    requires prefix == "name." || prefix == "location."
    requires '.' !in f
    ensures UpToDot((prefix + f)[|prefix|..]) == f
  {
    assert (prefix + f)[|prefix|..] == f + [];
    UpToDotOfField(f, []);
  }

  /** `{ ...user, ...editedUserData }`: the scratch members override the record's. */
  function Merge(user: User, s: Scratch): User
  {
    User(user.login, s.name, s.email, s.cell, s.location, user.picture,
         (user.extra + s.extra)["image" := s.image])
  }

  /**
   * The merged record keeps the record's `login` (so its username still
   * matches) and `picture`, takes `name` and `location` from the scratch
   * copy, and each string member from the scratch copy when it has one,
   * otherwise from the record; the scratch `image` becomes a new top-level
   * member beside the untouched `picture`.
   */
  lemma MergeSpec(user: User, s: Scratch)
    ensures var m := Merge(user, s);
      && m.login == user.login && Username(m) == Username(user)
      && m.picture == user.picture
      && m.name == s.name && m.location == s.location
      && Member(m, "image") == Some(s.image)
      && forall k :: Member(m, k) == if ScratchMember(s, k).Some? then ScratchMember(s, k) else Member(user, k)
  {
  }

  /**
   * Saving without any edit gives the record back with one more member,
   * `image`, holding the large portrait URL.
   */
  lemma SaveUnedited(user: User)
    ensures Merge(user, InitScratch(user)) == user.(extra := user.extra["image" := user.picture.large])
  {
    assert user.extra + map[] == user.extra;
  }

  /** The modal's state: the record it was opened for and the scratch copy. */
  class Modal {
    const user: User
    var editedUserData: Scratch

    /** Opening the modal copies the record's editable fields. */
    constructor (user: User)
      ensures this.user == user
      ensures editedUserData == InitScratch(user)
    {
      this.user := user;
      editedUserData := InitScratch(user);
    }

    /**
     * `handleInputChange`. A file input only starts reading the file; its
     * result arrives later through ImageLoaded.
     */
    method HandleInputChange(e: ChangeEvent)
      requires e.FieldChange? ==> Applicable(e.inputName)
      modifies this
      ensures e.FileChosen? ==> editedUserData == old(editedUserData)
      ensures e.FieldChange? ==> editedUserData == ApplyInput(old(editedUserData), e.inputName, e.value)
    {
      match e
      case FileChosen =>
      case FieldChange(inputName, value) =>
        editedUserData := ApplyInput(editedUserData, inputName, value);
    }

    /** The file reader's `onloadend`: the data URL becomes the scratch `image`. */
    method ImageLoaded(dataUrl: string)
      modifies this
      ensures editedUserData == old(editedUserData).(image := dataUrl)
      ensures ScratchMember(editedUserData, "image") == Some(dataUrl)
      ensures forall k :: k != "image" ==> ScratchMember(editedUserData, k) == ScratchMember(old(editedUserData), k)
    {
      editedUserData := editedUserData.(image := dataUrl);
    }

    /** `handleSave`: the record handed to the directory's save handler. */
    method HandleSave() returns (updated: User)
      ensures updated == Merge(user, editedUserData)
      ensures updated.login == user.login && updated.picture == user.picture
      ensures updated.name == editedUserData.name && updated.location == editedUserData.location
    {
      updated := Merge(user, editedUserData);
      MergeSpec(user, editedUserData);
    }
  }
}
