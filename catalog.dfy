/**
 * The catalog's table-type flags (source/libs/catalog/inc/catalogInt.h): a request for
 * table metadata carries a flag word saying whether the caller expects a super table,
 * a normal or child table, or does not know, and whether the database is a system
 * database. The macros are bit operations on that word; the `|=` ones are modelled as
 * functions that return the updated word.
 */
module CatalogFlags {

  type Flag = bv32

  const StbFlag: Flag := 0x1
  const NotStbFlag: Flag := 0x2
  const UnknownStbFlag: Flag := 0x4
  const SysDbFlag: Flag := 0x8
  const ForceUpdateFlag: Flag := 0x10

  /** TSDB_SUPER_TABLE, the table type of a super table; child and normal tables have
    * larger codes. */
  const SuperTableType: int := 1

  const InformationSchemaDb: string := "information_schema"
  const PerformanceSchemaDb: string := "performance_schema"

  /** CTG_FLAG_SET: turns the bits of v on and leaves every other bit as it was. */
  function FlagSet(flag: Flag, v: Flag): (r: Flag)
    ensures r & v == v
    ensures r & !v == flag & !v
  {
    flag | v
  }

  // The CTG_FLAG_IS_* tests, read as C truth values (non-zero is true).

  predicate IsStb(flag: Flag) { flag & StbFlag != 0 }
  predicate IsNotStb(flag: Flag) { flag & NotStbFlag != 0 }
  predicate IsUnknownStb(flag: Flag) { flag & UnknownStbFlag != 0 }
  predicate IsSysDb(flag: Flag) { flag & SysDbFlag != 0 }
  predicate IsForceUpdate(flag: Flag) { flag & ForceUpdateFlag != 0 }

  /** Each test holds exactly when its whole bit is set: the masks are single bits, so a
    * non-zero masked word is the mask itself. */
  lemma TestsAreWholeBits(flag: Flag)
    ensures IsStb(flag) <==> flag & StbFlag == StbFlag
    ensures IsNotStb(flag) <==> flag & NotStbFlag == NotStbFlag
    ensures IsUnknownStb(flag) <==> flag & UnknownStbFlag == UnknownStbFlag
    ensures IsSysDb(flag) <==> flag & SysDbFlag == SysDbFlag
    ensures IsForceUpdate(flag) <==> flag & ForceUpdateFlag == ForceUpdateFlag
  {
  }

  /** The five flags are distinct single bits. */
  lemma FlagsAreDistinctBits()
    ensures StbFlag & NotStbFlag == 0 && StbFlag & UnknownStbFlag == 0 && StbFlag & SysDbFlag == 0
    ensures StbFlag & ForceUpdateFlag == 0 && NotStbFlag & UnknownStbFlag == 0 && NotStbFlag & SysDbFlag == 0
    ensures NotStbFlag & ForceUpdateFlag == 0 && UnknownStbFlag & SysDbFlag == 0
    ensures UnknownStbFlag & ForceUpdateFlag == 0 && SysDbFlag & ForceUpdateFlag == 0
    ensures forall f: Flag {:trigger f & StbFlag} :: f & StbFlag == 0 || f & StbFlag == StbFlag
    ensures forall f: Flag {:trigger f & SysDbFlag} :: f & SysDbFlag == 0 || f & SysDbFlag == SysDbFlag
  {
  }

  /** Setting one flag leaves the tests of the other four as they were. */
  lemma SetLeavesOtherTests(flag: Flag, v: Flag)
    requires v in {StbFlag, NotStbFlag, UnknownStbFlag, SysDbFlag, ForceUpdateFlag}
    ensures v != StbFlag ==> (IsStb(FlagSet(flag, v)) <==> IsStb(flag))
    ensures v != NotStbFlag ==> (IsNotStb(FlagSet(flag, v)) <==> IsNotStb(flag))
    ensures v != UnknownStbFlag ==> (IsUnknownStb(FlagSet(flag, v)) <==> IsUnknownStb(flag))
    ensures v != SysDbFlag ==> (IsSysDb(FlagSet(flag, v)) <==> IsSysDb(flag))
    ensures v != ForceUpdateFlag ==> (IsForceUpdate(FlagSet(flag, v)) <==> IsForceUpdate(flag))
  {
    var r := FlagSet(flag, v);
    assert r == flag | v;
    if v == StbFlag {
      assert r & NotStbFlag == flag & NotStbFlag && r & UnknownStbFlag == flag & UnknownStbFlag;
      assert r & SysDbFlag == flag & SysDbFlag && r & ForceUpdateFlag == flag & ForceUpdateFlag;
    } else if v == NotStbFlag {
      assert r & StbFlag == flag & StbFlag && r & UnknownStbFlag == flag & UnknownStbFlag;
      assert r & SysDbFlag == flag & SysDbFlag && r & ForceUpdateFlag == flag & ForceUpdateFlag;
    } else if v == UnknownStbFlag {
      assert r & StbFlag == flag & StbFlag && r & NotStbFlag == flag & NotStbFlag;
      assert r & SysDbFlag == flag & SysDbFlag && r & ForceUpdateFlag == flag & ForceUpdateFlag;
    } else if v == SysDbFlag {
      assert r & StbFlag == flag & StbFlag && r & NotStbFlag == flag & NotStbFlag;
      assert r & UnknownStbFlag == flag & UnknownStbFlag && r & ForceUpdateFlag == flag & ForceUpdateFlag;
    } else {
      assert r & StbFlag == flag & StbFlag && r & NotStbFlag == flag & NotStbFlag;
      assert r & UnknownStbFlag == flag & UnknownStbFlag && r & SysDbFlag == flag & SysDbFlag;
    }
  }

  /** CTG_FLAG_SET_SYS_DB. */
  function SetSysDb(flag: Flag): (r: Flag)
    ensures IsSysDb(r)
    ensures r & !SysDbFlag == flag & !SysDbFlag
  {
    FlagSet(flag, SysDbFlag)
  }

  lemma SetSysDbIdempotent(flag: Flag)
    ensures SetSysDb(SetSysDb(flag)) == SetSysDb(flag)
    ensures IsSysDb(flag) ==> SetSysDb(flag) == flag
  {
  }

  /** The bit CTG_FLAG_SET_STB adds for a table type. */
  function StbBitFor(tbType: int): (b: Flag)
    ensures tbType == SuperTableType ==> b == StbFlag
    ensures tbType > SuperTableType ==> b == NotStbFlag
    ensures tbType < SuperTableType ==> b == UnknownStbFlag
  {
    if tbType == SuperTableType then StbFlag
    else if tbType > SuperTableType then NotStbFlag
    else UnknownStbFlag
  }

  /** CTG_FLAG_SET_STB: records what a table type says about being a super table. */
  function SetStb(flag: Flag, tbType: int): (r: Flag)
    ensures r & StbBitFor(tbType) == StbBitFor(tbType)
    ensures r & !StbBitFor(tbType) == flag & !StbBitFor(tbType)
  {
    FlagSet(flag, StbBitFor(tbType))
  }

  /** CTG_FLAG_MAKE_STB: the flag for a caller's answer to "is it a super table?",
    * 1 for yes, 0 for no, anything else for "don't know". */
  function MakeStb(isStb: int): (r: Flag)
    ensures isStb == 1 ==> r == StbFlag
    ensures isStb == 0 ==> r == NotStbFlag
    ensures isStb != 0 && isStb != 1 ==> r == UnknownStbFlag
  {
    if isStb == 1 then StbFlag else if isStb == 0 then NotStbFlag else UnknownStbFlag
  }

  /** CTG_FLAG_MATCH_STB: whether a table of type tbType is what the flag asks for. */
  predicate MatchStb(flag: Flag, tbType: int)
  {
    IsUnknownStb(flag) || (IsStb(flag) && tbType == SuperTableType) || (IsNotStb(flag) && tbType != SuperTableType)
  }

  /** What a flag accepts, by the kind of table: a super table is accepted by a flag with
    * the "unknown" or the "is a super table" bit, any other table by one with "unknown"
    * or "is not a super table"; a flag with none of the three accepts nothing. */
  lemma MatchStbCases(flag: Flag, tbType: int)
    ensures tbType == SuperTableType ==> (MatchStb(flag, tbType) <==> IsUnknownStb(flag) || IsStb(flag))
    ensures tbType != SuperTableType ==> (MatchStb(flag, tbType) <==> IsUnknownStb(flag) || IsNotStb(flag))
    ensures !IsStb(flag) && !IsNotStb(flag) && !IsUnknownStb(flag) ==> !MatchStb(flag, tbType)
  {
  }

  /** A flag built by CTG_FLAG_MAKE_STB accepts exactly the tables the answer describes:
    * "yes" only super tables, "no" every other type, "don't know" everything. */
  lemma MatchMadeStb(isStb: int, tbType: int)
    ensures isStb == 1 ==> (MatchStb(MakeStb(isStb), tbType) <==> tbType == SuperTableType)
    ensures isStb == 0 ==> (MatchStb(MakeStb(isStb), tbType) <==> tbType != SuperTableType)
    ensures isStb != 0 && isStb != 1 ==> MatchStb(MakeStb(isStb), tbType)
  {
  }

  /** A flag that had the table type recorded by CTG_FLAG_SET_STB matches that type,
    * whatever else the flag held. */
  lemma SetStbMatches(flag: Flag, tbType: int)
    ensures MatchStb(SetStb(flag, tbType), tbType)
  {
  }

  /** On a flag with only the system-database bit, recording a type and then matching a
    * type agree exactly: a super table matches only super tables, a larger type only
    * non-super tables, and a smaller (unknown) type everything. */
  lemma SetStbMatchesExactly(tbType: int, other: int)
    ensures tbType == SuperTableType ==> (MatchStb(SetStb(SysDbFlag, tbType), other) <==> other == SuperTableType)
    ensures tbType > SuperTableType ==> (MatchStb(SetStb(SysDbFlag, tbType), other) <==> other != SuperTableType)
    ensures tbType < SuperTableType ==> MatchStb(SetStb(SysDbFlag, tbType), other)
  {
  }

  /** CTG_IS_SYS_DBNAME: a quick test of the first character, then the full comparison.
    * An empty C string starts with the terminating zero, which matches neither. */
  predicate IsSysDbName(dbName: string): (b: bool)
    ensures b ==> dbName == InformationSchemaDb || dbName == PerformanceSchemaDb
  {
    && |dbName| > 0
    && ((dbName[0] == 'i' && dbName == InformationSchemaDb)
        || (dbName[0] == 'p' && dbName == PerformanceSchemaDb))
  }

  /** The first-character shortcut never rejects a system database name, so the test is
    * exactly membership in the two system databases. */
  lemma SysDbNameExactly(dbName: string)
    ensures IsSysDbName(dbName) <==> dbName == InformationSchemaDb || dbName == PerformanceSchemaDb
  {
    if dbName == InformationSchemaDb {
      assert dbName[0] == 'i';
    } else if dbName == PerformanceSchemaDb {
      assert dbName[0] == 'p';
    }
  }

  /** CTG_META_SIZE: a table's metadata block followed by one schema entry per tag and
    * per column. The two struct sizes are parameters. */
  function MetaSize(tableMetaSize: nat, schemaSize: nat, numOfTags: nat, numOfColumns: nat): (n: nat)
    ensures n >= tableMetaSize
    ensures schemaSize > 0 ==> n - tableMetaSize >= numOfTags + numOfColumns
  {
    tableMetaSize + (numOfTags + numOfColumns) * schemaSize
  }

  /** More tags or columns never make the metadata smaller, and each extra entry adds one
    * schema entry's size. */
  lemma MetaSizeMonotone(m: nat, s: nat, tags: nat, cols: nat, tags2: nat, cols2: nat)
    requires tags <= tags2 && cols <= cols2
    ensures MetaSize(m, s, tags, cols) <= MetaSize(m, s, tags2, cols2)
    ensures MetaSize(m, s, tags2, cols2) - MetaSize(m, s, tags, cols) == (tags2 - tags + cols2 - cols) * s
  {
    var d: nat := tags2 + cols2 - (tags + cols);
    assert (tags + cols + d) * s == (tags + cols) * s + d * s;
  }
}
