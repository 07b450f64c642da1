/** The `tasks` table's record (the Sequelize `Task` model). */
module Model {
  import opened Wrappers

  /** The `title` column is VARCHAR(255): at most 255 characters. */
  const TitleMaxLength: nat := 255

  /** The `description` column is TEXT: at most 65,535 bytes, in the character set
      utf8mb4, whose encoding is UTF-8. */
  const DescriptionMaxBytes: nat := 65535

  /** One row of `tasks`. `createdAt` is the store's clock reading at insertion,
      standing in for the TIMESTAMP the database fills in. */
  datatype Task = Task(
    id: int,
    title: string,
    description: Option<string>,
    completed: bool,
    createdAt: int)

  /** The number of bytes UTF-8 takes for `c`. */
  function Utf8Width(c: char): (n: nat)
    ensures 1 <= n <= 4
    ensures n == 1 <==> c < '\U{0080}'
  {
    if c < '\U{0080}' then 1 else if c < '\U{0800}' then 2 else if c < '\U{10000}' then 3 else 4
  }

  /** The number of bytes of `s` in UTF-8: at least one and at most four per
      character, and exactly one per character when `s` is ASCII. */
  function Utf8Length(s: string): (n: nat)
    ensures |s| <= n <= 4 * |s|
    ensures n == |s| <==> forall i :: 0 <= i < |s| ==> s[i] < '\U{0080}'
  {
    if s == [] then 0 else Utf8Width(s[0]) + Utf8Length(s[1..])
  }

  /** Splitting a string splits its UTF-8 bytes. */
  lemma {:induction false} Utf8Split(s: string, n: nat)
    requires n <= |s|
    ensures Utf8Length(s) == Utf8Length(s[..n]) + Utf8Length(s[n..])
    decreases n
  {
    if n == 0 {
      assert s[..0] == [] && s[0..] == s;
    } else {
      assert s[..n][0] == s[0] && s[..n][1..] == s[1..][..n - 1];
      Utf8Split(s[1..], n - 1);
      assert s[1..][n - 1..] == s[n..];
    }
  }

  /** Every character of `s` is the space U+0020. */
  predicate Spaces(s: string) {
    forall i :: 0 <= i < |s| ==> s[i] == ' '
  }

  /** A space takes one byte, so a run of spaces takes as many bytes as it has
      characters. */
  lemma SpacesBytes(s: string)
    requires Spaces(s)
    ensures Utf8Length(s) == |s|
  {
    assert forall i :: 0 <= i < |s| ==> s[i] < '\U{0080}';
  }

  /** The tail of a run of spaces is a run of spaces. */
  lemma SpacesFrom(s: string, n: nat, m: nat)
    requires n <= m <= |s| && Spaces(s[n..])
    ensures Spaces(s[m..])
  {
    forall i | 0 <= i < |s[m..]| ensures s[m..][i] == ' ' {
      assert s[m..][i] == s[n..][i + m - n];
    }
  }

  /** What VARCHAR(255) stores for `title`. A title that fits is stored as it is.
      Excess trailing spaces are cut off, in every SQL mode, leaving the first 255
      characters. `None` when characters other than spaces would be lost, which
      strict mode rejects. */
  function FitTitle(title: string): (r: Option<string>)
    ensures |title| <= TitleMaxLength ==> r == Some(title)
    ensures r.Some? ==> |r.value| <= TitleMaxLength && |r.value| <= |title| && r.value == title[..|r.value|] && Spaces(title[|r.value|..])
    ensures r.Some? && |title| > TitleMaxLength ==> |r.value| == TitleMaxLength
  {
    if |title| <= TitleMaxLength then Some(title)
    else if Spaces(title[TitleMaxLength..]) then Some(title[..TitleMaxLength])
    else None
  }

  /** A title is rejected only when no cut of trailing spaces makes it fit. */
  lemma FitTitleCutsOnlySpaces(title: string, n: nat)
    requires n <= |title| && n <= TitleMaxLength && Spaces(title[n..])
    ensures FitTitle(title).Some?
  {
    if |title| > TitleMaxLength {
      SpacesFrom(title, n, TitleMaxLength);
    }
  }

  /** What TEXT stores for `text`. A text that fits is stored as it is. Excess
      trailing spaces are cut off, in every SQL mode, leaving exactly 65,535 bytes.
      `None` when characters other than spaces would be lost, which strict mode
      rejects. */
  function FitText(text: string): (r: Option<string>)
    ensures Utf8Length(text) <= DescriptionMaxBytes ==> r == Some(text)
    ensures r.Some? ==>
      Utf8Length(r.value) <= DescriptionMaxBytes && |r.value| <= |text| && r.value == text[..|r.value|] && Spaces(text[|r.value|..])
    ensures r.Some? && Utf8Length(text) > DescriptionMaxBytes ==> Utf8Length(r.value) == DescriptionMaxBytes
  {
    var bytes := Utf8Length(text);
    if bytes <= DescriptionMaxBytes then Some(text)
    else
      var cut := |text| - (bytes - DescriptionMaxBytes);
      if 0 <= cut && Spaces(text[cut..]) then
        Utf8Split(text, cut);
        SpacesBytes(text[cut..]);
        Some(text[..cut])
      else None
  }

  /** A text is rejected only when no cut of trailing spaces makes it fit. */
  lemma FitTextCutsOnlySpaces(text: string, n: nat)
    requires n <= |text| && Spaces(text[n..]) && Utf8Length(text[..n]) <= DescriptionMaxBytes
    ensures FitText(text).Some?
  {
    Utf8Split(text, n);
    SpacesBytes(text[n..]);
    var bytes := Utf8Length(text);
    if bytes > DescriptionMaxBytes {
      SpacesFrom(text, n, |text| - (bytes - DescriptionMaxBytes));
    }
  }

  /** Values the columns accept once excess trailing spaces are cut off. */
  predicate Storable(title: string, description: Option<string>) {
    FitTitle(title).Some? && (description.None? || FitText(description.value).Some?)
  }

  /** A title and a description the columns can hold. */
  predicate ValuesFit(title: string, description: Option<string>) {
    && |title| <= TitleMaxLength
    && (description.None? || Utf8Length(description.value) <= DescriptionMaxBytes)
  }

  /** A row the table can hold: its title and description fit their columns. */
  predicate FitsColumns(t: Task) {
    ValuesFit(t.title, t.description)
  }

  /** Values that fit are accepted, and values that end in something other than
      a space are accepted only when they fit: such values lose nothing to the cut. */
  lemma StorableFits(title: string, description: Option<string>)
    ensures ValuesFit(title, description) ==> Storable(title, description)
    ensures Storable(title, description) && (title == [] || title[|title| - 1] != ' ') &&
            (description.Some? && description.value != [] ==>
               description.value[|description.value| - 1] != ' ')
            ==> ValuesFit(title, description)
  {
    if FitTitle(title).Some? {
      var k := |FitTitle(title).value|;
      assert k < |title| ==> title[k..][|title| - 1 - k] == title[|title| - 1];
    }
    if description.Some? && FitText(description.value).Some? {
      var d := description.value;
      var k := |FitText(d).value|;
      assert k < |d| ==> d[k..][|d| - 1 - k] == d[|d| - 1];
      assert k == |d| ==> FitText(d).value == d;
    }
  }

  /** The row as the table holds it: `t` with excess trailing spaces cut from its
      title and description. */
  function Stored(t: Task): (r: Task)
    requires Storable(t.title, t.description)
    ensures FitsColumns(r)
    ensures r.(title := t.title, description := t.description) == t
    ensures FitsColumns(t) ==> r == t
    ensures |r.title| <= |t.title| && r.title == t.title[..|r.title|] && Spaces(t.title[|r.title|..])
    ensures t.description.None? <==> r.description.None?
    ensures t.description.Some? ==>
              |r.description.value| <= |t.description.value| &&
              r.description.value == t.description.value[..|r.description.value|] &&
              Spaces(t.description.value[|r.description.value|..])
  {
    t.(title := FitTitle(t.title).value,
       description := if t.description.None? then None else Some(FitText(t.description.value).value))
  }

  /** The row an insert of `title` and `description` produces: the database assigns
      `id` (auto-increment) and `createdAt` (default now), and `completed` takes
      its column default, false. */
  function NewRow(id: int, title: string, description: Option<string>, now: int): (t: Task)
    ensures t.id == id && t.createdAt == now && !t.completed
    ensures t.title == title && t.description == description
    ensures FitsColumns(t) <==> ValuesFit(title, description)
  {
    Task(id, title, description, false, now)
  }
}
