/**
 * The Elasticsearch document id of a changed row. The handler joins the
 * schema, the table and the primary-key values with `-`, after deleting
 * every `-` from the key values, and then percent-encodes the result with
 * `urllib.parse.quote_plus` so that the id is a single path segment.
 */
module DocumentId {
  import opened Wrappers
  import opened Text
  import opened UrlQuote
  import ChangefeedAddress

  /** `schema + '-' + table`, the document type of a table. */
  function TypeName(schema: string, table: string): string
  {
    schema + "-" + table
  }

  /** The key values with every `-` deleted. */
  function KeyParts(key: seq<string>): (parts: seq<string>)
    ensures |parts| == |key|
    ensures forall i :: 0 <= i < |parts| ==> '-' !in parts[i]
    ensures forall i :: 0 <= i < |parts| ==> parts[i] == Remove(key[i], '-')
  {
    if |key| == 0 then [] else [Remove(key[0], '-')] + KeyParts(key[1..])
  }

  /** The id before quoting: `type_name + '-' + '-'.join(...)`. */
  function RawId(schema: string, table: string, key: seq<string>): string
  {
    TypeName(schema, table) + "-" + Join(KeyParts(key), '-')
  }

  /** The id as sent to Elasticsearch. */
  function EsId(schema: string, table: string, key: seq<string>): string
  {
    QuotePlus(RawId(schema, table, key))
  }

  /**
   * What the raw id records of the key: `'-'.join` of no parts is the empty
   * string, which reads back as one empty part.
   */
  function KeyFields(key: seq<string>): (fields: seq<string>)
    ensures |fields| >= 1
  {
    if |key| == 0 then [""] else KeyParts(key)
  }

  /**
   * When neither the schema nor the table contains `-`, splitting the raw
   * id at `-` gives back the schema, the table and the key values with
   * their `-` deleted.
   */
  lemma RawIdSplit(schema: string, table: string, key: seq<string>)
    requires '-' !in schema && '-' !in table
    ensures Split(RawId(schema, table, key), '-') == [schema, table] + KeyFields(key)
  {
    var rest := Join(KeyParts(key), '-');
    assert RawId(schema, table, key) == schema + ['-'] + (table + ['-'] + rest);
    SplitAtSeparator(schema, table + ['-'] + rest, '-');
    SplitAtSeparator(table, rest, '-');
    if |key| == 0 {
      SplitNoSeparator(rest, '-');
    } else {
      SplitJoin(KeyParts(key), '-');
    }
  }

  /**
   * For schemas and tables without `-`, two rows get the same raw id
   * exactly when they have the same schema, the same table and the same
   * key values once `-` is deleted from them.
   */
  lemma RawIdInjective(s1: string, t1: string, k1: seq<string>, s2: string, t2: string, k2: seq<string>)
    requires '-' !in s1 && '-' !in t1 && '-' !in s2 && '-' !in t2
    ensures RawId(s1, t1, k1) == RawId(s2, t2, k2) <==> s1 == s2 && t1 == t2 && KeyFields(k1) == KeyFields(k2)
  {
    RawIdSplit(s1, t1, k1);
    RawIdSplit(s2, t2, k2);
    var f1 := [s1, t1] + KeyFields(k1);
    var f2 := [s2, t2] + KeyFields(k2);
    if RawId(s1, t1, k1) == RawId(s2, t2, k2) {
      assert f1 == f2;
      assert f1[0] == s1 && f2[0] == s2 && f1[1] == t1 && f2[1] == t2;
      assert f1[2..] == KeyFields(k1) && f2[2..] == KeyFields(k2);
    }
    if s1 == s2 && t1 == t2 && KeyFields(k1) == KeyFields(k2) {
      if |k1| == 0 || |k2| == 0 {
        assert Join(KeyParts(k1), '-') == "" == Join(KeyParts(k2), '-') by {
          assert KeyFields(k1) == [""];
        }
      }
    }
  }

  /** Deleting `-` makes distinct key values collide: `a-b` and `ab`. */
  lemma RawIdHyphenCollision(schema: string, table: string)
    ensures RawId(schema, table, ["a-b"]) == RawId(schema, table, ["ab"])
  {
    assert Remove("a-b", '-') == "ab" by {
      assert "a-b"[1..] == "-b" && "-b"[1..] == "b" && "b"[1..] == "";
    }
    assert Remove("ab", '-') == "ab" by {
      assert "ab"[1..] == "b" && "b"[1..] == "";
    }
  }

  /** An empty key and a key holding one empty string collide too. */
  lemma RawIdEmptyKeyCollision(schema: string, table: string)
    ensures RawId(schema, table, []) == RawId(schema, table, [""])
    ensures RawId(schema, table, []) == schema + "-" + table + "-"
  {
  }

  /** The quoted id never holds `/`, so it stays one segment of the path. */
  lemma EsIdNoSlash(schema: string, table: string, key: seq<string>)
    ensures '/' !in EsId(schema, table, key)
    ensures forall i :: 0 <= i < |EsId(schema, table, key)| ==> IsQuotedChar(EsId(schema, table, key)[i])
  {
    QuotePlusAlphabet(RawId(schema, table, key));
  }

  /** Quoting loses nothing: `unquote_plus` recovers the raw id. */
  lemma EsIdUnquote(schema: string, table: string, key: seq<string>)
    ensures UnquotePlus(EsId(schema, table, key)) == Some(RawId(schema, table, key))
  {
    UnquoteQuotePlus(RawId(schema, table, key));
  }

  /** Quoting keeps distinct raw ids distinct. */
  lemma EsIdInjective(s1: string, t1: string, k1: seq<string>, s2: string, t2: string, k2: seq<string>)
    ensures EsId(s1, t1, k1) == EsId(s2, t2, k2) <==> RawId(s1, t1, k1) == RawId(s2, t2, k2)
  {
    if EsId(s1, t1, k1) == EsId(s2, t2, k2) {
      QuotePlusInjective(RawId(s1, t1, k1), RawId(s2, t2, k2));
    }
  }

  /**
   * For the schema and table the address pattern accepts (word
   * characters), ids of two rows are equal exactly when the rows have the
   * same schema, table and key values once `-` is deleted.
   */
  lemma EsIdIdentifiesRow(s1: string, t1: string, k1: seq<string>, s2: string, t2: string, k2: seq<string>)
    requires ChangefeedAddress.IsWord(s1) && ChangefeedAddress.IsWord(t1)
    requires ChangefeedAddress.IsWord(s2) && ChangefeedAddress.IsWord(t2)
    ensures EsId(s1, t1, k1) == EsId(s2, t2, k2) <==> s1 == s2 && t1 == t2 && KeyFields(k1) == KeyFields(k2)
  {
    ChangefeedAddress.WordLacks(s1, '-');
    ChangefeedAddress.WordLacks(t1, '-');
    ChangefeedAddress.WordLacks(s2, '-');
    ChangefeedAddress.WordLacks(t2, '-');
    EsIdInjective(s1, t1, k1, s2, t2, k2);
    RawIdInjective(s1, t1, k1, s2, t2, k2);
  }

  /**
   * When every character of the raw id is already unreserved (ASCII
   * letters, digits and `_.-~`), quoting leaves it as it is.
   */
  lemma EsIdPlain(schema: string, table: string, key: seq<string>)
    requires forall i :: 0 <= i < |RawId(schema, table, key)| ==> IsUnreserved(RawId(schema, table, key)[i])
    ensures EsId(schema, table, key) == RawId(schema, table, key)
  {
    QuotePlusUnreserved(RawId(schema, table, key));
  }
}
