/**
 * The application error type `HWSystemError`: nine variants, each carrying a
 * message, and its `Display` rendering, which puts a fixed variant-specific
 * prefix in front of the message. The convenience constructors of the source
 * (`cache_connection(msg)`, ..., `storage_plugin_not_found(msg)`) are the
 * datatype's own constructors here.
 */
module Errors {
  import opened Wrappers

  datatype HWSystemError =
    | CacheConnection(msg: string)
    | DatabaseConfig(msg: string)
    | DatabaseConnection(msg: string)
    | DatabaseOperation(msg: string)
    | FileOperation(msg: string)
    | Validation(msg: string)
    | Serialization(msg: string)
    | StoragePluginNotFound(msg: string)
    | DateParse(msg: string)

  const CacheConnectionPrefix: string := "缓存连接错误: "
  const DatabaseConfigPrefix: string := "数据库配置错误: "
  const DatabaseConnectionPrefix: string := "数据库连接错误: "
  const DatabaseOperationPrefix: string := "数据库操作错误: "
  const FileOperationPrefix: string := "文件操作错误: "
  const ValidationPrefix: string := "验证错误: "
  const SerializationPrefix: string := "序列化错误: "
  const StoragePluginNotFoundPrefix: string := "存储插件未找到: "
  const DateParsePrefix: string := "日期解析错误: "

  /** The nine prefixes, in declaration order of the variants. */
  const AllPrefixes: seq<string> := [
    CacheConnectionPrefix, DatabaseConfigPrefix, DatabaseConnectionPrefix,
    DatabaseOperationPrefix, FileOperationPrefix, ValidationPrefix,
    SerializationPrefix, StoragePluginNotFoundPrefix, DateParsePrefix
  ]

  function Prefix(e: HWSystemError): string {
    match e
    case CacheConnection(_) => CacheConnectionPrefix
    case DatabaseConfig(_) => DatabaseConfigPrefix
    case DatabaseConnection(_) => DatabaseConnectionPrefix
    case DatabaseOperation(_) => DatabaseOperationPrefix
    case FileOperation(_) => FileOperationPrefix
    case Validation(_) => ValidationPrefix
    case Serialization(_) => SerializationPrefix
    case StoragePluginNotFound(_) => StoragePluginNotFoundPrefix
    case DateParse(_) => DateParsePrefix
  }

  /** `impl Display for HWSystemError`. */
  function Display(e: HWSystemError): (s: string)
    ensures Prefix(e) <= s && s[|Prefix(e)|..] == e.msg
    ensures ParseDisplay(s) == Some(e)
  {
    var s := Prefix(e) + e.msg;
    DisplayParses(e, s);
    s
  }

  /**
   * Reads a rendered error back: the first prefix the text starts with
   * names the variant, the rest is the message.
   */
  function ParseDisplay(s: string): Option<HWSystemError> {
    if CacheConnectionPrefix <= s then Some(CacheConnection(s[|CacheConnectionPrefix|..]))
    else if DatabaseConfigPrefix <= s then Some(DatabaseConfig(s[|DatabaseConfigPrefix|..]))
    else if DatabaseConnectionPrefix <= s then Some(DatabaseConnection(s[|DatabaseConnectionPrefix|..]))
    else if DatabaseOperationPrefix <= s then Some(DatabaseOperation(s[|DatabaseOperationPrefix|..]))
    else if FileOperationPrefix <= s then Some(FileOperation(s[|FileOperationPrefix|..]))
    else if ValidationPrefix <= s then Some(Validation(s[|ValidationPrefix|..]))
    else if SerializationPrefix <= s then Some(Serialization(s[|SerializationPrefix|..]))
    else if StoragePluginNotFoundPrefix <= s then Some(StoragePluginNotFound(s[|StoragePluginNotFoundPrefix|..]))
    else if DateParsePrefix <= s then Some(DateParse(s[|DateParsePrefix|..]))
    else None
  }

  /** The prefixes are pairwise distinct and none is a prefix of another. */
  lemma PrefixFree(i: nat, j: nat)
    requires i < |AllPrefixes| && j < |AllPrefixes| && i != j
    ensures !(AllPrefixes[i] <= AllPrefixes[j])
  {
    var p, q := AllPrefixes[i], AllPrefixes[j];
    if p[0] == q[0] {
      // only the three 数据库… prefixes share a first character
      assert p[3] != q[3];
    }
  }

  /** Two strings that both extend the same prefixes agree on the shorter one. */
  lemma PrefixesOfSameText(p: string, q: string, s: string)
    requires p <= s && q <= s && |p| <= |q|
    ensures p <= q
  {
    assert forall k :: 0 <= k < |p| ==> p[k] == s[k] == q[k];
  }

  /** A rendered prefix is never mistaken for another variant's prefix. */
  lemma OtherPrefixAbsent(i: nat, j: nat, s: string)
    requires i < |AllPrefixes| && j < |AllPrefixes| && i != j
    requires AllPrefixes[i] <= s
    ensures !(AllPrefixes[j] <= s)
  {
    var p, q := AllPrefixes[i], AllPrefixes[j];
    if q <= s {
      if |p| <= |q| {
        PrefixesOfSameText(p, q, s);
        PrefixFree(i, j);
      } else {
        PrefixesOfSameText(q, p, s);
        PrefixFree(j, i);
      }
    }
  }

  function PrefixIndex(e: HWSystemError): (i: nat)
    ensures i < |AllPrefixes| && AllPrefixes[i] == Prefix(e)
  {
    match e
    case CacheConnection(_) => 0
    case DatabaseConfig(_) => 1
    case DatabaseConnection(_) => 2
    case DatabaseOperation(_) => 3
    case FileOperation(_) => 4
    case Validation(_) => 5
    case Serialization(_) => 6
    case StoragePluginNotFound(_) => 7
    case DateParse(_) => 8
  }

  lemma DisplayParses(e: HWSystemError, s: string)
    requires s == Prefix(e) + e.msg
    ensures ParseDisplay(s) == Some(e)
  {
    var i := PrefixIndex(e);
    assert AllPrefixes[i] <= s;
    assert s[|Prefix(e)|..] == e.msg;
    assert AllPrefixes == [
      CacheConnectionPrefix, DatabaseConfigPrefix, DatabaseConnectionPrefix,
      DatabaseOperationPrefix, FileOperationPrefix, ValidationPrefix,
      SerializationPrefix, StoragePluginNotFoundPrefix, DateParsePrefix];
    if i != 0 { OtherPrefixAbsent(i, 0, s); }
    if i != 1 { OtherPrefixAbsent(i, 1, s); }
    if i != 2 { OtherPrefixAbsent(i, 2, s); }
    if i != 3 { OtherPrefixAbsent(i, 3, s); }
    if i != 4 { OtherPrefixAbsent(i, 4, s); }
    if i != 5 { OtherPrefixAbsent(i, 5, s); }
    if i != 6 { OtherPrefixAbsent(i, 6, s); }
    if i != 7 { OtherPrefixAbsent(i, 7, s); }
  }

  /** `Display` loses nothing: different errors render differently. */
  lemma DisplayInjective(a: HWSystemError, b: HWSystemError)
    requires Display(a) == Display(b)
    ensures a == b
  {
  }
}
