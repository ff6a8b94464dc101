/** `TableMetadata` of table_manager.py and its text file: a `PRIMARY_KEY=`
    line and, when there are unique keys, a `UNIQUE_KEYS=` line. */
module Schema {
  import opened Base
  import opened Text

  /** A table's primary key and unique-key set. The key is absent when the
      metadata was loaded from a missing file or one without its line. The
      set is held as a duplicate-free sequence whose order stands for the
      set's iteration order; only membership carries meaning elsewhere. */
  datatype TableMetadata = TableMetadata(primaryKey: Option<string>, uniqueKeys: seq<string>)

  /** The values of column `c` must be distinct: `c` is the primary key or a unique key. */
  predicate Constrained(meta: TableMetadata, c: string)
  {
    meta.primaryKey == Some(c) || c in meta.uniqueKeys
  }

  /** `TableMetadata(primary_key, unique_keys)`, which turns the keys into a set. */
  function MakeMetadata(primaryKey: string, uniqueKeys: seq<string>): (m: TableMetadata)
    ensures m.primaryKey == Some(primaryKey)
    ensures Distinct(m.uniqueKeys)
    ensures forall k :: k in m.uniqueKeys <==> k in uniqueKeys
  {
    TableMetadata(Some(primaryKey), Dedup(uniqueKeys))
  }

  const PrimaryKeyTag: string := "PRIMARY_KEY="
  const UniqueKeysTag: string := "UNIQUE_KEYS="

  /** What an f-string makes of the primary key: its name, or `None`. */
  function KeyText(key: Option<string>): string
  {
    match key
    case Some(k) => k
    case None => "None"
  }

  /** The lines `_save_metadata` writes. */
  function MetadataLines(m: TableMetadata): seq<string>
  {
    [PrimaryKeyTag + KeyText(m.primaryKey)]
    + (if |m.uniqueKeys| > 0 then [UniqueKeysTag + Join(m.uniqueKeys, ',')] else [])
  }

  /** The text of the metadata file `_save_metadata` writes. */
  function EncodeMetadata(m: TableMetadata): string
  {
    LinesText(MetadataLines(m))
  }

  /** `line.strip().split("=")[1]` for a line that starts with one of the
      two tags: the text between the first and second `=` of the stripped line. */
  function TagValue(line: string): string
    requires StartsWith(line, PrimaryKeyTag) || StartsWith(line, UniqueKeysTag)
  {
    TagPieces(line);
    Split(Strip(line), '=')[1]
  }

  /** A tagged line has a piece after its first `=`. */
  lemma {:induction false} TagPieces(line: string)
    requires StartsWith(line, PrimaryKeyTag) || StartsWith(line, UniqueKeysTag)
    ensures |Split(Strip(line), '=')| >= 2
  {
    var stripped := Strip(line);
    var tag := if StartsWith(line, PrimaryKeyTag) then PrimaryKeyTag else UniqueKeysTag;
    StripKeepsTag(line, tag);
    assert stripped[|tag| - 1] == '=';
    SplitTwoPieces(stripped, '=');
  }

  lemma {:induction false} SplitTwoPieces(s: string, sep: char)
    requires sep in s
    ensures |Split(s, sep)| >= 2
  {
    var parts := Split(s, sep);
    JoinSplit(s, sep);
    assert Join(parts, sep) == s;
  }

  /** Stripping keeps a tag whose first and last characters are not whitespace. */
  lemma {:induction false} StripKeepsTag(line: string, tag: string)
    requires StartsWith(line, tag) && |tag| > 0
    requires !IsSpace(tag[0]) && !IsSpace(tag[|tag| - 1])
    ensures StartsWith(Strip(line), tag)
  {
    var left := TrimLeft(line, IsSpace);
    assert line[0] == tag[0];
    assert left == line;
    var right := TrimRight(left, IsSpace);
    assert line[|tag| - 1] == tag[|tag| - 1];
    assert |right| >= |tag|;
  }

  /** One line of the metadata file applied to what was read before it. */
  function DecodeLine(acc: TableMetadata, line: string): (r: TableMetadata)
    ensures Distinct(acc.uniqueKeys) ==> Distinct(r.uniqueKeys)
  {
    if StartsWith(line, PrimaryKeyTag) then
      acc.(primaryKey := Some(TagValue(line)))
    else if StartsWith(line, UniqueKeysTag) then
      acc.(uniqueKeys := Dedup(acc.uniqueKeys + Split(TagValue(line), ',')))
    else acc
  }

  function DecodeLines(acc: TableMetadata, ls: seq<string>): (r: TableMetadata)
    ensures Distinct(acc.uniqueKeys) ==> Distinct(r.uniqueKeys)
    decreases |ls|
  {
    if |ls| == 0 then acc else DecodeLines(DecodeLine(acc, ls[0]), ls[1..])
  }

  /** `_load_metadata` reading an existing file: a later `PRIMARY_KEY=` line
      overrides an earlier one, `UNIQUE_KEYS=` lines add to the set, and
      other lines are ignored. */
  function DecodeMetadata(text: string): (m: TableMetadata)
    ensures Distinct(m.uniqueKeys)
  {
    DecodeLines(TableMetadata(None, []), Lines(text))
  }

  /** `_load_metadata` as a whole: a missing file gives no primary key and
      no unique keys. */
  function LoadMetadata(file: Option<string>): (m: TableMetadata)
    ensures Distinct(m.uniqueKeys)
    ensures file.None? ==> m.primaryKey.None? && m.uniqueKeys == []
  {
    match file
    case None => TableMetadata(None, [])
    case Some(text) => DecodeMetadata(text)
  }

  /** A name the metadata file can carry without being cut up on reading. */
  predicate PlainName(s: string)
  {
    '=' !in s && ',' !in s && OneLine(s) && Trimmed(s, IsSpace)
  }

  lemma {:induction false} TaggedLineValue(tag: string, v: string)
    requires |tag| > 1 && tag[|tag| - 1] == '=' && '=' !in tag[..|tag| - 1]
    requires !IsSpace(tag[0]) && '=' !in v && Trimmed(v, IsSpace)
    requires tag == PrimaryKeyTag || tag == UniqueKeysTag
    ensures TagValue(tag + v) == v
  {
    var name := tag[..|tag| - 1];
    assert tag == name + "=";
    assert Trimmed(tag + v, IsSpace);
    assert (tag + v)[|tag| - 1] == '=';
    assert tag + v == Join([name, v], '=');
    SplitJoin([name, v], '=');
  }

  lemma {:induction false} DecodeKeyLine(acc: TableMetadata, v: string)
    requires PlainName(v)
    ensures DecodeLine(acc, PrimaryKeyTag + v) == acc.(primaryKey := Some(v))
  {
    assert PrimaryKeyTag[..|PrimaryKeyTag| - 1] == "PRIMARY_KEY";
    TaggedLineValue(PrimaryKeyTag, v);
    assert StartsWith(PrimaryKeyTag + v, PrimaryKeyTag);
  }

  lemma NotTagged(line: string, tag: string)
    requires |line| > 0 && |tag| > 0 && line[0] != tag[0]
    ensures !StartsWith(line, tag)
  {
  }

  lemma {:induction false} DecodeUniqueLine(acc: TableMetadata, keys: seq<string>)
    requires |keys| > 0
    requires forall k :: k in keys ==> PlainName(k)
    ensures DecodeLine(acc, UniqueKeysTag + Join(keys, ','))
            == acc.(uniqueKeys := Dedup(acc.uniqueKeys + keys))
  {
    var joined := Join(keys, ',');
    assert forall k :: 0 <= k < |keys| ==> PlainName(keys[k]);
    JoinAvoids(keys, ',', '=');
    JoinTrimmed(keys, ',', IsSpace);
    assert UniqueKeysTag[..|UniqueKeysTag| - 1] == "UNIQUE_KEYS";
    TaggedLineValue(UniqueKeysTag, joined);
    SplitJoin(keys, ',');
    var line := UniqueKeysTag + joined;
    NotTagged(line, PrimaryKeyTag);
    assert StartsWith(line, UniqueKeysTag);
    assert Split(TagValue(line), ',') == keys;
    var r := DecodeLine(acc, line);
    assert r == acc.(uniqueKeys := Dedup(acc.uniqueKeys + Split(TagValue(line), ',')));
  }

  /** Saving metadata and loading it back gives the primary key as the text
      that was written, and the same unique keys, provided the names are plain. */
  lemma {:induction false} ReloadLines(ls: seq<string>)
    requires forall k :: 0 <= k < |ls| ==> OneLine(ls[k])
    ensures DecodeMetadata(LinesText(ls)) == DecodeLines(TableMetadata(None, []), ls)
  {
    LinesRoundTrip(ls);
  }

  lemma DecodeOne(acc: TableMetadata, a: string)
    ensures DecodeLines(acc, [a]) == DecodeLine(acc, a)
  {
    assert [a][1..] == [];
  }

  lemma DecodeTwo(acc: TableMetadata, a: string, b: string)
    ensures DecodeLines(acc, [a, b]) == DecodeLine(DecodeLine(acc, a), b)
  {
    assert [a, b][1..] == [b];
    DecodeOne(DecodeLine(acc, a), b);
  }

  lemma {:induction false} DecodeTwoLines(pk: string, keys: seq<string>)
    requires PlainName(pk)
    requires |keys| > 0 && Distinct(keys) && forall k :: k in keys ==> PlainName(k)
    ensures DecodeLines(TableMetadata(None, []), [PrimaryKeyTag + pk, UniqueKeysTag + Join(keys, ',')])
            == TableMetadata(Some(pk), keys)
  {
    var empty := TableMetadata(None, []);
    var afterKey := empty.(primaryKey := Some(pk));
    DecodeTwo(empty, PrimaryKeyTag + pk, UniqueKeysTag + Join(keys, ','));
    DecodeKeyLine(empty, pk);
    DecodeUniqueLine(afterKey, keys);
    assert [] + keys == keys;
  }

  lemma {:induction false} MetadataReload(m: TableMetadata)
    requires PlainName(KeyText(m.primaryKey))
    requires Distinct(m.uniqueKeys)
    requires forall k :: k in m.uniqueKeys ==> PlainName(k)
    ensures DecodeMetadata(EncodeMetadata(m)) == TableMetadata(Some(KeyText(m.primaryKey)), m.uniqueKeys)
  {
    if |m.uniqueKeys| > 0 {
      ReloadWithUniques(m);
    } else {
      ReloadKeyOnly(m);
    }
  }

  lemma {:induction false} KeyLinePlain(pk: string)
    requires PlainName(pk)
    ensures OneLine(PrimaryKeyTag + pk)
  {
    assert OneLine(PrimaryKeyTag);
  }

  lemma {:induction false} UniqueLinePlain(keys: seq<string>)
    requires forall k :: k in keys ==> PlainName(k)
    ensures OneLine(UniqueKeysTag + Join(keys, ','))
  {
    assert forall k :: 0 <= k < |keys| ==> PlainName(keys[k]);
    JoinOneLine(keys, ',');
    assert OneLine(UniqueKeysTag);
  }

  lemma {:induction false} ReloadWithUniques(m: TableMetadata)
    requires PlainName(KeyText(m.primaryKey)) && |m.uniqueKeys| > 0
    requires Distinct(m.uniqueKeys)
    requires forall k :: k in m.uniqueKeys ==> PlainName(k)
    ensures DecodeMetadata(EncodeMetadata(m)) == TableMetadata(Some(KeyText(m.primaryKey)), m.uniqueKeys)
  {
    var pk := KeyText(m.primaryKey);
    var first := PrimaryKeyTag + pk;
    var second := UniqueKeysTag + Join(m.uniqueKeys, ',');
    KeyLinePlain(pk);
    UniqueLinePlain(m.uniqueKeys);
    EncodeTwo(m);
    ReloadLines([first, second]);
    DecodeTwoLines(pk, m.uniqueKeys);
  }

  lemma {:induction false} EncodeTwo(m: TableMetadata)
    requires |m.uniqueKeys| > 0
    ensures EncodeMetadata(m)
            == LinesText([PrimaryKeyTag + KeyText(m.primaryKey), UniqueKeysTag + Join(m.uniqueKeys, ',')])
  {
    assert MetadataLines(m) == [PrimaryKeyTag + KeyText(m.primaryKey), UniqueKeysTag + Join(m.uniqueKeys, ',')];
  }

  lemma {:induction false} ReloadKeyOnly(m: TableMetadata)
    requires PlainName(KeyText(m.primaryKey)) && |m.uniqueKeys| == 0
    ensures DecodeMetadata(EncodeMetadata(m)) == TableMetadata(Some(KeyText(m.primaryKey)), m.uniqueKeys)
  {
    var pk := KeyText(m.primaryKey);
    var first := PrimaryKeyTag + pk;
    var empty := TableMetadata(None, []);
    KeyLinePlain(pk);
    DecodeOne(empty, first);
    DecodeKeyLine(empty, pk);
    assert MetadataLines(m) == [first];
    ReloadLines([first]);
  }

  /** Saving metadata that has a primary key and loading it back recovers
      it exactly, provided the names are plain. */
  lemma {:induction false} MetadataRoundTrip(m: TableMetadata)
    requires m.primaryKey.Some? && PlainName(m.primaryKey.value)
    requires Distinct(m.uniqueKeys)
    requires forall k :: k in m.uniqueKeys ==> PlainName(k)
    ensures DecodeMetadata(EncodeMetadata(m)) == m
  {
    MetadataReload(m);
  }

  /** Metadata without a primary key is saved with the text `None` as its
      key, so loading the file back names the column `None` as primary key. */
  lemma {:induction false} MissingKeyReloadsAsNone(uniqueKeys: seq<string>)
    requires Distinct(uniqueKeys)
    requires forall k :: k in uniqueKeys ==> PlainName(k)
    ensures DecodeMetadata(EncodeMetadata(TableMetadata(None, uniqueKeys)))
            == TableMetadata(Some("None"), uniqueKeys)
  {
    MetadataReload(TableMetadata(None, uniqueKeys));
  }
}
