/**
  The database types a log record can come from (`DbTypeEnum`): each
  constant has a category and a set of aliases, and a static table maps
  every lower-cased alias to its constant. Lookups go by alias first and
  fall back to the constant's own name.

  Java's `toLowerCase`/`toUpperCase` are modelled as ASCII case mapping;
  Java's null is `None`.
*/
module DbTypes {
  import opened Common

  /** `DbCategoryEnum`. */
  datatype DbCategory = Rdb | Mq | BigData | NoSql

  /** The constants of `DbTypeEnum`. */
  datatype DbType = Ob05 | ObMysql | ObOracle | Unknown

  /** `values()`: the constants in declaration order. */
  const AllTypes: seq<DbType> := [Ob05, ObMysql, ObOracle, Unknown]

  /** `name()`. */
  function Name(t: DbType): (n: string)
  {
    match t
    case Ob05 => "OB_05"
    case ObMysql => "OB_MYSQL"
    case ObOracle => "OB_ORACLE"
    case Unknown => "UNKNOWN"
  }

  /** `getCategory()`: every OceanBase mode is relational; UNKNOWN has no category. */
  function Category(t: DbType): (c: Option<DbCategory>)
    ensures c == Some(Rdb) <==> t != Unknown
    ensures c.None? <==> t == Unknown
  {
    if t == Unknown then None else Some(Rdb)
  }

  /** `getAliases()`, as written in the constant's declaration; UNKNOWN's set is empty. */
  function Aliases(t: DbType): (a: seq<string>)
    ensures a == [] <==> t == Unknown
  {
    match t
    case Ob05 => ["oceanbase", "ob05"]
    case ObMysql => ["oceanbase1", "ob10", "oceanbase_mysql_mode"]
    case ObOracle => ["oceanbase_oracle_mode", "ob_in_oracle_mode"]
    case Unknown => []
  }

  predicate IsUpperChar(c: char) { 'A' <= c <= 'Z' }
  predicate IsLowerChar(c: char) { 'a' <= c <= 'z' }

  /** ASCII `Character.toLowerCase`. */
  function LowerChar(c: char): (d: char)
    ensures !IsUpperChar(d)
    ensures d == c || IsUpperChar(c)
  {
    if IsUpperChar(c) then (c as int - 'A' as int + 'a' as int) as char else c
  }

  /** ASCII `Character.toUpperCase`. */
  function UpperChar(c: char): (d: char)
    ensures !IsLowerChar(d)
    ensures d == c || IsLowerChar(c)
  {
    if IsLowerChar(c) then (c as int - 'a' as int + 'A' as int) as char else c
  }

  /** `toLowerCase()` on ASCII letters. */
  function Lower(s: string): (r: string)
    ensures |r| == |s|
    ensures forall i :: 0 <= i < |s| ==> r[i] == LowerChar(s[i])
  {
    seq(|s|, i requires 0 <= i < |s| => LowerChar(s[i]))
  }

  /** `toUpperCase()` on ASCII letters. */
  function Upper(s: string): (r: string)
    ensures |r| == |s|
    ensures forall i :: 0 <= i < |s| ==> r[i] == UpperChar(s[i])
  {
    seq(|s|, i requires 0 <= i < |s| => UpperChar(s[i]))
  }

  /** Lower-casing forgets the case a string was written in. */
  lemma LowerForgetsCase(s: string)
    ensures Lower(Lower(s)) == Lower(s)
    ensures Lower(Upper(s)) == Lower(s)
  {
    assert forall i :: 0 <= i < |s| ==> LowerChar(LowerChar(s[i])) == LowerChar(s[i]);
    assert forall i :: 0 <= i < |s| ==> LowerChar(UpperChar(s[i])) == LowerChar(s[i]);
  }

  /** Keys of the `(key, value)` pairs are pairwise distinct. */
  predicate DistinctKeys(entries: seq<(string, DbType)>)
  {
    forall i, j :: 0 <= i < j < |entries| ==> entries[i].0 != entries[j].0
  }

  /** The `(lower-cased alias, constant)` pairs of one constant. */
  function AliasPairs(t: DbType): (ps: seq<(string, DbType)>)
    ensures |ps| == |Aliases(t)|
    ensures forall i :: 0 <= i < |ps| ==> ps[i] == (Lower(Aliases(t)[i]), t)
  {
    seq(|LowerAliases(t)|, i requires 0 <= i < |LowerAliases(t)| => (LowerAliases(t)[i], t))
  }

  /** The pairs the static block visits, constant by constant. */
  function AliasEntries(types: seq<DbType>): (es: seq<(string, DbType)>)
    decreases |types|
  {
    if |types| == 0 then [] else AliasPairs(types[0]) + AliasEntries(types[1..])
  }

  /**
    The alias table under construction, and whether every
    `assert !ALIAS_ENUM_MAP.containsKey(...)` so far has held.
  */
  datatype AliasTable = AliasTable(entries: map<string, DbType>, assertionsHeld: bool)

  /** The static block's `put` loop over the pairs, in order. */
  function PutAll(tab: AliasTable, pairs: seq<(string, DbType)>): (r: AliasTable)
    ensures r.entries.Keys == tab.entries.Keys + set i | 0 <= i < |pairs| :: pairs[i].0
    ensures |pairs| > 0 ==> r.entries[pairs[|pairs| - 1].0] == pairs[|pairs| - 1].1
    ensures r.assertionsHeld ==> tab.assertionsHeld
    decreases |pairs|
  {
    if |pairs| == 0 then tab
    else
      var (k, t) := pairs[0];
      PutAll(AliasTable(tab.entries[k := t], tab.assertionsHeld && k !in tab.entries), pairs[1..])
  }

  /**
    `put` semantics over the loop: a key the loop never visits keeps its
    value, and a visited key ends with the value of its last `put`.
  */
  lemma {:induction false} PutAllLastPutWins(tab: AliasTable, pairs: seq<(string, DbType)>)
    ensures forall k :: k in tab.entries && (forall i :: 0 <= i < |pairs| ==> pairs[i].0 != k) ==>
      PutAll(tab, pairs).entries[k] == tab.entries[k]
    ensures forall i :: 0 <= i < |pairs| && (forall j :: i < j < |pairs| ==> pairs[j].0 != pairs[i].0) ==>
      PutAll(tab, pairs).entries[pairs[i].0] == pairs[i].1
    decreases |pairs|
  {
    if |pairs| > 0 {
      var (k, t) := pairs[0];
      var next := AliasTable(tab.entries[k := t], tab.assertionsHeld && k !in tab.entries);
      var rest := pairs[1..];
      PutAllLastPutWins(next, rest);
      assert forall i :: 0 <= i < |rest| ==> rest[i] == pairs[i + 1];
    }
  }

  /** The assertions of the static block all hold exactly when no key is put twice and none was there before. */
  lemma {:induction false} PutAllAssertions(tab: AliasTable, pairs: seq<(string, DbType)>)
    ensures PutAll(tab, pairs).assertionsHeld <==>
      tab.assertionsHeld && DistinctKeys(pairs)
      && forall i :: 0 <= i < |pairs| ==> pairs[i].0 !in tab.entries
    decreases |pairs|
  {
    if |pairs| > 0 {
      var (k, t) := pairs[0];
      var next := AliasTable(tab.entries[k := t], tab.assertionsHeld && k !in tab.entries);
      var rest := pairs[1..];
      PutAllAssertions(next, rest);
      assert forall i :: 0 <= i < |rest| ==> rest[i] == pairs[i + 1];
      if PutAll(tab, pairs).assertionsHeld {
        forall i, j | 0 <= i < j < |pairs| ensures pairs[i].0 != pairs[j].0 {
          assert pairs[j] == rest[j - 1];
          if i > 0 {
            assert pairs[i] == rest[i - 1];
          }
        }
      }
    }
  }

  /** The lower-cased aliases of a constant, in declaration order. */
  function LowerAliases(t: DbType): (r: seq<string>)
    ensures |r| == |Aliases(t)|
    ensures forall i :: 0 <= i < |r| ==> r[i] == Lower(Aliases(t)[i])
  {
    seq(|Aliases(t)|, i requires 0 <= i < |Aliases(t)| => Lower(Aliases(t)[i]))
  }

  /** The declared aliases are written in lower case already. */
  lemma LowerAliasesAsDeclared(t: DbType)
    ensures LowerAliases(t) == Aliases(t)
  {
    match t
    case Ob05 =>
      LowerOfLowerCase("oceanbase");
      LowerOfLowerCase("ob05");
    case ObMysql =>
      LowerOfLowerCase("oceanbase1");
      LowerOfLowerCase("ob10");
      LowerOfLowerCase("oceanbase_mysql_mode");
    case ObOracle =>
      LowerOfLowerCase("oceanbase_oracle_mode");
      LowerOfLowerCase("ob_in_oracle_mode");
    case Unknown =>
  }

  /** A string without upper-case letters is its own lower case. */
  lemma LowerOfLowerCase(s: string)
    requires forall i :: 0 <= i < |s| ==> !IsUpperChar(s[i])
    ensures Lower(s) == s
  {
  }

  /** The pairs of each constant, as declared. */
  lemma AliasPairsAsDeclared(t: DbType)
    ensures AliasPairs(t) == match t
      case Ob05 => [("oceanbase", Ob05), ("ob05", Ob05)]
      case ObMysql => [("oceanbase1", ObMysql), ("ob10", ObMysql), ("oceanbase_mysql_mode", ObMysql)]
      case ObOracle => [("oceanbase_oracle_mode", ObOracle), ("ob_in_oracle_mode", ObOracle)]
      case Unknown => []
  {
    LowerAliasesAsDeclared(t);
  }

  /** The pairs the static block visits for `values()`. */
  lemma AllAliasEntries()
    ensures AliasEntries(AllTypes) == [
      ("oceanbase", Ob05), ("ob05", Ob05),
      ("oceanbase1", ObMysql), ("ob10", ObMysql), ("oceanbase_mysql_mode", ObMysql),
      ("oceanbase_oracle_mode", ObOracle), ("ob_in_oracle_mode", ObOracle)]
  {
    AliasEntriesFromMysql();
    AliasEntriesStep(Ob05, [ObMysql, ObOracle, Unknown]);
  }

  /** The pairs visited from OB_MYSQL on. */
  lemma AliasEntriesFromMysql()
    ensures AliasEntries([ObMysql, ObOracle, Unknown]) == [
      ("oceanbase1", ObMysql), ("ob10", ObMysql), ("oceanbase_mysql_mode", ObMysql),
      ("oceanbase_oracle_mode", ObOracle), ("ob_in_oracle_mode", ObOracle)]
  {
    AliasEntriesFromOracle();
    AliasEntriesStep(ObMysql, [ObOracle, Unknown]);
  }

  /** The pairs visited from OB_ORACLE on. */
  lemma AliasEntriesFromOracle()
    ensures AliasEntries([ObOracle, Unknown]) == [("oceanbase_oracle_mode", ObOracle), ("ob_in_oracle_mode", ObOracle)]
  {
    AliasEntriesStep(Unknown, []);
    AliasEntriesStep(ObOracle, [Unknown]);
  }

  /** One constant's declared pairs, then the rest. */
  lemma AliasEntriesStep(t: DbType, ts: seq<DbType>)
    ensures AliasEntries([t] + ts) == (match t
      case Ob05 => [("oceanbase", Ob05), ("ob05", Ob05)]
      case ObMysql => [("oceanbase1", ObMysql), ("ob10", ObMysql), ("oceanbase_mysql_mode", ObMysql)]
      case ObOracle => [("oceanbase_oracle_mode", ObOracle), ("ob_in_oracle_mode", ObOracle)]
      case Unknown => []) + AliasEntries(ts)
  {
    AliasEntriesCons(t, ts);
    AliasPairsAsDeclared(t);
  }

  lemma AliasEntriesCons(t: DbType, ts: seq<DbType>)
    ensures AliasEntries([t] + ts) == AliasPairs(t) + AliasEntries(ts)
  {
    assert ([t] + ts)[1..] == ts;
  }

  /** `ALIAS_ENUM_MAP` as the static block leaves it: every declared alias, each mapped to the constant declaring it. */
  function AliasEnumMap(): (m: map<string, DbType>)
    ensures forall t, a :: a in Aliases(t) ==> a in m && m[a] == t
    ensures forall k :: k in m ==> k in Aliases(m[k])
  {
    AllAliasEntries();
    AliasMapFromDeclaredPairs();
    var m := PutAll(AliasTable(map[], true), AliasEntries(AllTypes)).entries;
    DeclaredAliasMap(m);
    m
  }

  /** The declared aliases' table maps each alias to its constant and holds nothing else. */
  lemma DeclaredAliasMap(m: map<string, DbType>)
    requires m == map[
      "oceanbase" := Ob05, "ob05" := Ob05,
      "oceanbase1" := ObMysql, "ob10" := ObMysql, "oceanbase_mysql_mode" := ObMysql,
      "oceanbase_oracle_mode" := ObOracle, "ob_in_oracle_mode" := ObOracle]
    ensures forall t, a :: a in Aliases(t) ==> a in m && m[a] == t
    ensures forall k :: k in m ==> k in Aliases(m[k])
  {
    forall t, a | a in Aliases(t) ensures a in m && m[a] == t {
      match t
      case Ob05 =>
      case ObMysql =>
      case ObOracle =>
      case Unknown =>
    }
  }

  /**
    No lower-cased alias belongs to two constants, so the static block's
    assertions all hold, and `ALIAS_ENUM_MAP` maps exactly the declared
    aliases, each to the constant that declares it.
  */
  lemma AliasEnumMapWellDefined()
    ensures DistinctKeys(AliasEntries(AllTypes))
    ensures PutAll(AliasTable(map[], true), AliasEntries(AllTypes)).assertionsHeld
    ensures AliasEnumMap() == map[
      "oceanbase" := Ob05, "ob05" := Ob05,
      "oceanbase1" := ObMysql, "ob10" := ObMysql, "oceanbase_mysql_mode" := ObMysql,
      "oceanbase_oracle_mode" := ObOracle, "ob_in_oracle_mode" := ObOracle]
  {
    AllAliasEntries();
    DeclaredAliasesDistinct();
    PutAllAssertions(AliasTable(map[], true), AliasEntries(AllTypes));
    AliasMapFromDeclaredPairs();
  }

  /** The `put` loop run over the declared pairs. */
  lemma AliasMapFromDeclaredPairs()
    ensures PutAll(AliasTable(map[], true), [
      ("oceanbase", Ob05), ("ob05", Ob05),
      ("oceanbase1", ObMysql), ("ob10", ObMysql), ("oceanbase_mysql_mode", ObMysql),
      ("oceanbase_oracle_mode", ObOracle), ("ob_in_oracle_mode", ObOracle)]).entries == map[
      "oceanbase" := Ob05, "ob05" := Ob05,
      "oceanbase1" := ObMysql, "ob10" := ObMysql, "oceanbase_mysql_mode" := ObMysql,
      "oceanbase_oracle_mode" := ObOracle, "ob_in_oracle_mode" := ObOracle]
  {
  }

  /** No declared alias is declared twice. */
  lemma DeclaredAliasesDistinct()
    ensures DistinctKeys([
      ("oceanbase", Ob05), ("ob05", Ob05),
      ("oceanbase1", ObMysql), ("ob10", ObMysql), ("oceanbase_mysql_mode", ObMysql),
      ("oceanbase_oracle_mode", ObOracle), ("ob_in_oracle_mode", ObOracle)])
  {
  }

  /** `alias` is, ignoring case, one of the aliases declared for `t`. */
  predicate IsAliasOf(alias: string, t: DbType)
  {
    Lower(alias) in LowerAliases(t)
  }

  /** A key of `ALIAS_ENUM_MAP` maps to a constant exactly when it is one of that constant's lower-cased aliases. */
  lemma AliasEnumMapLookup(k: string)
    ensures forall t :: k in AliasEnumMap() && AliasEnumMap()[k] == t <==> k in LowerAliases(t)
  {
    forall t ensures k in AliasEnumMap() && AliasEnumMap()[k] == t <==> k in LowerAliases(t) {
      AliasEnumMapLookupFor(k, t);
    }
  }

  lemma AliasEnumMapLookupFor(k: string, t: DbType)
    ensures k in AliasEnumMap() && AliasEnumMap()[k] == t <==> k in LowerAliases(t)
  {
    AliasEnumMapWellDefined();
    LowerAliasesAsDeclared(t);
  }

  /** `fromAlias`: the table lookup of the lower-cased argument. */
  function FromAlias(alias: string): (r: Option<DbType>)
    ensures forall t :: r == Some(t) <==> IsAliasOf(alias, t)
    ensures r != Some(Unknown)
  {
    var k := Lower(alias);
    AliasEnumMapLookup(k);
    if k in AliasEnumMap() then Some(AliasEnumMap()[k]) else None
  }

  /** `valueOf(name)`: the constant with exactly that name; the thrown `IllegalArgumentException` becomes `None`. */
  function ValueOf(name: string): (r: Option<DbType>)
    ensures forall t :: r == Some(t) <==> Name(t) == name
  {
    if name == Name(Ob05) then Some(Ob05)
    else if name == Name(ObMysql) then Some(ObMysql)
    else if name == Name(ObOracle) then Some(ObOracle)
    else if name == Name(Unknown) then Some(Unknown)
    else None
  }

  /**
    `valueOfIgnoreCase`: an alias match wins; otherwise the constant whose
    name is the upper-cased argument; `None` (Java's null) when neither
    exists. It never throws.
  */
  function ValueOfIgnoreCase(value: string): (r: Option<DbType>)
    ensures FromAlias(value).Some? ==> r == FromAlias(value)
    ensures FromAlias(value).None? ==> forall t :: r == Some(t) <==> Name(t) == Upper(value)
  {
    if FromAlias(value).Some? then FromAlias(value) else ValueOf(Upper(value))
  }

  /** `fromAlias` does not see letter case. */
  lemma FromAliasIgnoresCase(s: string)
    ensures FromAlias(s) == FromAlias(Lower(s))
    ensures FromAlias(s) == FromAlias(Upper(s))
  {
    LowerForgetsCase(s);
  }

  /** Every declared alias, in any letter case, leads to the constant that declares it. */
  lemma EveryAliasFound(t: DbType, i: nat, s: string)
    requires i < |Aliases(t)| && Lower(s) == Lower(Aliases(t)[i])
    ensures FromAlias(s) == Some(t)
    ensures ValueOfIgnoreCase(s) == Some(t)
  {
    assert IsAliasOf(s, t);
  }

  /**
    UNKNOWN declares no alias, so it is reached only through its name:
    `valueOfIgnoreCase` returns it exactly for the spellings of "UNKNOWN".
  */
  lemma UnknownOnlyByName(v: string)
    ensures ValueOfIgnoreCase(v) == Some(Unknown) <==> Upper(v) == "UNKNOWN"
  {
    if Upper(v) == "UNKNOWN" {
      LowerForgetsCase(v);
      assert Lower(v) == Lower("UNKNOWN");
      assert Lower("UNKNOWN") == "unknown";
      forall t ensures !IsAliasOf(v, t) {
        LowerAliasesAsDeclared(t);
      }
    }
  }

  /**
    Every constant is found by its own name in any letter case: no
    constant's name is also an alias, so the name lookup is reached.
  */
  lemma EveryNameFound(t: DbType, s: string)
    requires Upper(s) == Name(t)
    ensures ValueOfIgnoreCase(s) == Some(t)
  {
    LowerForgetsCase(s);
    assert Lower(s)[2] == '_' || Lower(s) == Lower("UNKNOWN");
    forall t' ensures !IsAliasOf(s, t') {
      LowerAliasesAsDeclared(t');
    }
  }
}
