/** The `Article` record and the validations that guard its table: a title
    and a guid must be present, the guid must be unique across the whole
    table, and the article must belong to a channel. */
module Articles {
  import opened Wrappers

  type ChannelId = nat

  /** An article, persisted or only initialized. Fields are optional because
      an initialized record may still lack them; the validations decide
      whether it may be saved. */
  datatype Article = Article(
    guid: Option<string>,
    channel: Option<ChannelId>,
    title: Option<string>,
    description: Option<string>,
    publishedAt: Option<int>,
    content: Option<string>,
    url: Option<string>,
    imageUrl: Option<string>
  )

  /** The articles table, rows in insertion order. */
  type Table = seq<Article>

  /** Characters Ruby's `[[:space:]]` class matches (Unicode White_Space). */
  predicate IsSpace(c: char)
  {
    || ('\U{0009}' <= c <= '\U{000D}')
    || c == ' ' || c == '\U{0085}' || c == '\U{00A0}' || c == '\U{1680}'
    || ('\U{2000}' <= c <= '\U{200A}')
    || c == '\U{2028}' || c == '\U{2029}' || c == '\U{202F}' || c == '\U{205F}'
    || c == '\U{3000}'
  }

  /** Ruby's `blank?` on an optional string: nil, empty, or only whitespace. */
  predicate Blank(s: Option<string>)
  {
    s.None? || forall k :: 0 <= k < |s.value| ==> IsSpace(s.value[k])
  }

  /** What `presence: true` accepts. */
  predicate Present(s: Option<string>)
  {
    !Blank(s)
  }

  /** Whether some row of the table already carries `guid`. */
  predicate GuidTaken(t: Table, guid: Option<string>)
  {
    exists i :: 0 <= i < |t| && t[i].guid == guid
  }

  /** The validations a record must pass before it is saved. */
  datatype Violation = TitleBlank | GuidBlank | GuidNotUnique | ChannelMissing

  /** A row that satisfies the per-record validations. */
  predicate RowValid(a: Article)
  {
    Present(a.title) && Present(a.guid) && a.channel.Some?
  }

  /** No two rows share a guid, whatever channel they belong to. */
  predicate UniqueGuids(t: Table)
  {
    forall i, j :: 0 <= i < j < |t| ==> t[i].guid != t[j].guid
  }

  /** The invariant the validations keep for every stored article. */
  predicate TableValid(t: Table)
  {
    (forall i :: 0 <= i < |t| ==> RowValid(t[i])) && UniqueGuids(t)
  }

  /** All validation errors of `a` against the table `t`, collected the way
      Rails runs every validation before reporting. */
  function Violations(t: Table, a: Article): (v: set<Violation>)
    ensures v == {} <==> RowValid(a) && !GuidTaken(t, a.guid)
  {
    (if Blank(a.title) then {TitleBlank} else {})
    + (if Blank(a.guid) then {GuidBlank} else {})
    + (if GuidTaken(t, a.guid) then {GuidNotUnique} else {})
    + (if a.channel.None? then {ChannelMissing} else {})
  }

  /** Saving a record: validate, then append it as a new row. */
  function Save(t: Table, a: Article): (r: Result<Table, set<Violation>>)
    ensures r.Success? ==> r.value == t + [a] && RowValid(a) && !GuidTaken(t, a.guid)
    ensures r.Failure? ==> r.error != {} && (!RowValid(a) || GuidTaken(t, a.guid))
    ensures TableValid(t) && r.Success? ==> TableValid(r.value)
  {
    var v := Violations(t, a);
    if v == {} then
      var t' := t + [a];
      assert forall i :: 0 <= i < |t| ==> t'[i] == t[i];
      Success(t')
    else
      Failure(v)
  }
}
