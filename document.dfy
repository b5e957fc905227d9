/** The in-memory INI document and the pure meaning of the facade operations
    ReadString, WriteString, DeleteKey, DeleteSection, SetComment,
    GetSectionCount and GetKeyCount. */
module IniDoc {

  /** `_key`: value, the comment text written before it, tombstone, and whether
      it has been declared (and so appended to its section's order list). */
  datatype Key = Key(value: string, comments: string, deleted: bool, registered: bool)

  /** The `_key` that `operator[]` creates for a missing name. */
  const DefaultKey := Key("", "", false, false)

  /** `_section`: its keys, their declaration order (duplicates possible),
      the comment text written before its header, tombstone, registration. */
  datatype Section = Section(
    keys: map<string, Key>,
    insertOrder: seq<string>,
    comments: string,
    deleted: bool,
    registered: bool)

  /** The `_section` that `operator[]` creates for a missing name. */
  const DefaultSection := Section(map[], [], "", false, false)

  /** The document: `m_sections`, `m_insertOrder` and the trailing `m_comments`. */
  datatype Document = Document(sections: map<string, Section>, insertOrder: seq<string>, comments: string)

  const EmptyDocument := Document(map[], [], "")

  /** What `m_sections[name]` reads: the entry, or a default one. */
  function SectionOf(d: Document, name: string): Section {
    if name in d.sections then d.sections[name] else DefaultSection
  }

  /** What `_keys[name]` reads: the entry, or a default one. */
  function KeyOf(sec: Section, name: string): Key {
    if name in sec.keys then sec.keys[name] else DefaultKey
  }

  /** Every name in the key order has an entry, and a key is registered exactly
      when it is in the order. */
  predicate SectionWellFormed(sec: Section) {
    && (forall k :: k in sec.insertOrder ==> k in sec.keys && sec.keys[k].registered)
    && (forall k :: k in sec.keys && sec.keys[k].registered ==> k in sec.insertOrder)
  }

  /** The document invariant every operation keeps: the same two facts for the
      section order, and for the key order of every section. */
  predicate WellFormed(d: Document) {
    && (forall n :: n in d.insertOrder ==> n in d.sections && d.sections[n].registered)
    && (forall n :: n in d.sections && d.sections[n].registered ==> n in d.insertOrder)
    && (forall n :: n in d.sections ==> SectionWellFormed(d.sections[n]))
  }

  predicate NoDuplicates(s: seq<string>) {
    forall i, j :: 0 <= i < j < |s| ==> s[i] != s[j]
  }

  // ---------------------------------------------------------------------------
  // Reads

  predicate HasSection(d: Document, s: string) {
    s in d.sections
  }

  predicate HasKey(d: Document, s: string, k: string) {
    s in d.sections && k in d.sections[s].keys
  }

  /** A key ReadString finds: present and not tombstoned. The section's own
      tombstone is not consulted. */
  predicate IsLive(d: Document, s: string, k: string) {
    HasKey(d, s, k) && !d.sections[s].keys[k].deleted
  }

  /** `ReadString`: the stored value of a live key, otherwise `default`. */
  function ReadString(d: Document, s: string, k: string, default: string): string {
    if IsLive(d, s, k) then d.sections[s].keys[k].value else default
  }

  /** `GetSectionCount`: the length of the section order, tombstoned and
      repeated names included. */
  function SectionCount(d: Document): nat {
    |d.insertOrder|
  }

  /** `GetKeyCount`: the length of the section's key order, or 0. */
  function KeyCount(d: Document, s: string): nat {
    if s in d.sections then |d.sections[s].insertOrder| else 0
  }

  // ---------------------------------------------------------------------------
  // Updates

  /** `WriteString`: upsert the value, append the section and the key to their
      order lists only if not yet registered, clear both tombstones. */
  function Write(d: Document, s: string, k: string, v: string): (r: Document)
    ensures IsLive(r, s, k) && ReadString(r, s, k, "") == v
    ensures !r.sections[s].deleted && r.sections[s].registered && r.sections[s].keys[k].registered
    ensures forall t :: t != s ==> (t in r.sections <==> t in d.sections)
    ensures forall t :: t != s && t in d.sections ==> r.sections[t] == d.sections[t]
    ensures r.comments == d.comments
    ensures r.sections[s].keys[k].comments == KeyOf(SectionOf(d, s), k).comments
  {
    var sec := SectionOf(d, s);
    var order := if sec.registered then d.insertOrder else d.insertOrder + [s];
    d.(sections := d.sections[s := WriteKey(sec, k, v)], insertOrder := order)
  }

  /** The section part of WriteString: the key's value is set, the key is
      appended to the key order if it was not registered, and the section and
      the key are registered and live. */
  function WriteKey(sec: Section, k: string, v: string): Section {
    var key := KeyOf(sec, k);
    var keyOrder := if key.registered then sec.insertOrder else sec.insertOrder + [k];
    var key' := key.(value := v, registered := true, deleted := false);
    sec.(keys := sec.keys[k := key'], insertOrder := keyOrder, registered := true, deleted := false)
  }

  /** WriteString keeps the document invariant; the section is appended to the
      section order, and the key to the key order, exactly when it was not there
      yet, so neither order gains a duplicate. */
  lemma WriteWellFormed(d: Document, s: string, k: string, v: string)
    requires WellFormed(d)
    ensures WellFormed(Write(d, s, k, v))
    ensures Write(d, s, k, v).insertOrder == if s in d.insertOrder then d.insertOrder else d.insertOrder + [s]
    ensures KeyCount(Write(d, s, k, v), s) == KeyCount(d, s) + if HasKey(d, s, k) && k in d.sections[s].insertOrder then 0 else 1
    ensures NoDuplicates(d.insertOrder) ==> NoDuplicates(Write(d, s, k, v).insertOrder)
    ensures Write(d, s, k, v).sections[s].insertOrder
         == if k in SectionOf(d, s).insertOrder then SectionOf(d, s).insertOrder else SectionOf(d, s).insertOrder + [k]
    ensures NoDuplicates(SectionOf(d, s).insertOrder) ==> NoDuplicates(Write(d, s, k, v).sections[s].insertOrder)
    ensures forall t :: t != k && t in SectionOf(d, s).keys ==>
              t in Write(d, s, k, v).sections[s].keys && Write(d, s, k, v).sections[s].keys[t] == SectionOf(d, s).keys[t]
    ensures Write(d, s, k, v).sections[s].comments == SectionOf(d, s).comments
  {
    var sec := SectionOf(d, s);
    SectionOfWellFormed(d, s);
    var key := KeyOf(sec, k);
    assert k in sec.insertOrder <==> key.registered;
    var sec' := WriteKey(sec, k, v);
    assert SectionWellFormed(sec');
    if sec.registered {
      PutSectionWellFormed(d, s, sec');
    } else {
      AddSectionWellFormed(d, s, sec');
      NoDuplicatesSnoc(d.insertOrder, s);
    }
    if !key.registered {
      NoDuplicatesSnoc(sec.insertOrder, k);
    }
  }

  /** Appending a name that is not yet in a list keeps it free of duplicates. */
  lemma NoDuplicatesSnoc(order: seq<string>, n: string)
    requires n !in order
    ensures NoDuplicates(order) ==> NoDuplicates(order + [n])
  {
  }

  /** The entry `m_sections[name]` reads keeps the section invariant. */
  lemma SectionOfWellFormed(d: Document, n: string)
    requires WellFormed(d)
    ensures SectionWellFormed(SectionOf(d, n))
    ensures SectionOf(d, n).registered <==> n in d.insertOrder
  {
  }

  /** Storing a well-formed section whose registration matches the section
      order keeps the document invariant. */
  lemma PutSectionWellFormed(d: Document, n: string, sec: Section)
    requires WellFormed(d) && SectionWellFormed(sec)
    requires sec.registered <==> n in d.insertOrder
    ensures WellFormed(d.(sections := d.sections[n := sec]))
  {
  }

  /** Storing a registered section and appending its name to the section order
      keeps the document invariant. */
  lemma AddSectionWellFormed(d: Document, n: string, sec: Section)
    requires WellFormed(d) && SectionWellFormed(sec) && sec.registered
    ensures WellFormed(d.(sections := d.sections[n := sec], insertOrder := d.insertOrder + [n]))
  {
  }

  /** `DeleteKey`: tombstone the key when the section and the key exist. */
  function DeleteKey(d: Document, s: string, k: string): (r: Document)
    ensures !HasKey(d, s, k) ==> r == d
    ensures HasKey(d, s, k) ==>
              && HasKey(r, s, k) && !IsLive(r, s, k)
              && r.sections[s].keys[k].comments == d.sections[s].keys[k].comments
              && r.sections[s].keys[k].value == d.sections[s].keys[k].value
    ensures r.insertOrder == d.insertOrder && r.comments == d.comments
    ensures forall t :: KeyCount(r, t) == KeyCount(d, t)
    ensures forall t :: t != s && t in d.sections ==> t in r.sections && r.sections[t] == d.sections[t]
    ensures HasKey(d, s, k) ==>
              && r.sections[s].insertOrder == d.sections[s].insertOrder
              && r.sections[s].comments == d.sections[s].comments
              && r.sections[s].deleted == d.sections[s].deleted
              && r.sections[s].registered == d.sections[s].registered
              && r.sections[s].keys[k].registered == d.sections[s].keys[k].registered
              && forall j :: j != k && j in d.sections[s].keys ==>
                   j in r.sections[s].keys && r.sections[s].keys[j] == d.sections[s].keys[j]
    ensures WellFormed(d) ==> WellFormed(r)
  {
    if HasKey(d, s, k) then
      var sec := d.sections[s];
      var sec' := sec.(keys := sec.keys[k := sec.keys[k].(deleted := true)]);
      d.(sections := d.sections[s := sec'])
    else d
  }

  /** `DeleteSection`: tombstone the section and drop all its keys and their
      order; its own comment stays. */
  function DeleteSection(d: Document, s: string): (r: Document)
    ensures !HasSection(d, s) ==> r == d
    ensures HasSection(d, s) ==>
              && HasSection(r, s) && r.sections[s].deleted
              && r.sections[s].comments == d.sections[s].comments
              && KeyCount(r, s) == 0
              && forall k :: !HasKey(r, s, k)
    ensures r.insertOrder == d.insertOrder && r.comments == d.comments
    ensures forall t :: t != s ==> KeyCount(r, t) == KeyCount(d, t)
    ensures forall t :: t != s && t in d.sections ==> t in r.sections && r.sections[t] == d.sections[t]
    ensures HasSection(d, s) ==> r.sections[s].registered == d.sections[s].registered
    ensures WellFormed(d) ==> WellFormed(r)
  {
    if HasSection(d, s) then
      var sec := d.sections[s];
      d.(sections := d.sections[s := sec.(deleted := true, keys := map[], insertOrder := [])])
    else d
  }

  /** `SetComment`: with an empty key name the comment of the key named "" is
      set, otherwise the section's comment. Missing entries are created but not
      registered, and no order list changes. */
  function SetComment(d: Document, s: string, k: string, text: string): (r: Document)
    ensures HasSection(r, s)
    ensures k == "" ==> HasKey(r, s, "") && r.sections[s].keys[""].comments == text
    ensures k != "" ==> r.sections[s].comments == text
    ensures r.insertOrder == d.insertOrder && r.comments == d.comments
    ensures forall t :: KeyCount(r, t) == KeyCount(d, t)
    ensures forall t :: t in d.sections ==> t in r.sections && r.sections[t].insertOrder == d.sections[t].insertOrder
    ensures r.sections[s].insertOrder == SectionOf(d, s).insertOrder
    ensures r.sections[s].deleted == SectionOf(d, s).deleted && r.sections[s].registered == SectionOf(d, s).registered
    ensures k == "" ==>
              && r.sections[s].keys[""].value == KeyOf(SectionOf(d, s), "").value
              && r.sections[s].keys[""].deleted == KeyOf(SectionOf(d, s), "").deleted
              && r.sections[s].keys[""].registered == KeyOf(SectionOf(d, s), "").registered
    ensures forall t :: t != s && t in d.sections ==> r.sections[t] == d.sections[t]
    ensures k != "" ==> r.sections[s].keys == SectionOf(d, s).keys
    ensures k == "" ==> r.sections[s].comments == SectionOf(d, s).comments
    ensures k == "" ==> forall t :: t != "" && t in SectionOf(d, s).keys ==>
              t in r.sections[s].keys && r.sections[s].keys[t] == SectionOf(d, s).keys[t]
    ensures WellFormed(d) ==> WellFormed(r)
  {
    var sec := SectionOf(d, s);
    var sec' :=
      if k == "" then sec.(keys := sec.keys[k := KeyOf(sec, k).(comments := text)])
      else sec.(comments := text);
    d.(sections := d.sections[s := sec'])
  }

  // ---------------------------------------------------------------------------
  // Properties relating several operations

  /** WriteString changes what ReadString returns for its own key only. */
  lemma WriteFrame(d: Document, s: string, k: string, v: string, s': string, k': string, default: string)
    requires s' != s || k' != k
    ensures ReadString(Write(d, s, k, v), s', k', default) == ReadString(d, s', k', default)
  {
  }

  /** After DeleteKey, ReadString gives the default, and no other key changes. */
  lemma DeleteKeyReads(d: Document, s: string, k: string, s': string, k': string, default: string)
    ensures ReadString(DeleteKey(d, s, k), s, k, default) == default
    ensures s' != s || k' != k ==> ReadString(DeleteKey(d, s, k), s', k', default) == ReadString(d, s', k', default)
  {
  }

  /** Writing the old value back over a tombstoned key of a live, registered
      section restores the document exactly: DeleteKey keeps everything but the
      tombstone. */
  lemma WriteUndoesDeleteKey(d: Document, s: string, k: string)
    requires WellFormed(d)
    requires IsLive(d, s, k) && k in d.sections[s].insertOrder
    requires s in d.insertOrder && !d.sections[s].deleted
    ensures Write(DeleteKey(d, s, k), s, k, ReadString(d, s, k, "")) == d
  {
    var r := Write(DeleteKey(d, s, k), s, k, ReadString(d, s, k, ""));
    assert r.sections[s].keys == d.sections[s].keys;
    assert r.sections == d.sections;
  }

  /** SetComment changes no value ReadString returns, a present key "" included,
      except that an absent key "" becomes present with the empty value when the
      key name is empty. */
  lemma SetCommentReads(d: Document, s: string, k: string, text: string, s': string, k': string, default: string)
    ensures s' != s || k' != "" || k != "" ==>
              ReadString(SetComment(d, s, k, text), s', k', default) == ReadString(d, s', k', default)
    ensures k == "" && !HasKey(d, s, "") ==> ReadString(SetComment(d, s, k, text), s, "", default) == ""
    ensures k == "" && HasKey(d, s, "") ==> ReadString(SetComment(d, s, k, text), s, "", default) == ReadString(d, s, "", default)
  {
  }

  /** After DeleteSection every key of the section reads as the default and the
      section counts no keys, while the section count and every read of another
      section are unchanged. */
  lemma DeleteSectionReads(d: Document, s: string, k: string, default: string)
    ensures ReadString(DeleteSection(d, s), s, k, default) == default
    ensures KeyCount(DeleteSection(d, s), s) == 0
    ensures SectionCount(DeleteSection(d, s)) == SectionCount(d)
    ensures forall t, k' :: t != s ==> ReadString(DeleteSection(d, s), t, k', default) == ReadString(d, t, k', default)
  {
  }
}
