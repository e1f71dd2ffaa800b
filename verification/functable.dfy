/**
 * The registry of built-in functions (func.cc): a static table of
 * descriptors, inserted once into a map keyed by name and then looked up.
 *
 * The descriptor's handler function is not represented; a descriptor is its
 * name, its argument counts and its two trimming flags.
 */
module FuncTable {
  import opened Wrappers
  import opened StrUtil

  /**
   * A descriptor: `arity` is the number of arguments the function takes (0
   * for the variadic `and` and `or`), `minArity` the fewest it accepts.
   */
  datatype FuncInfo = FuncInfo(name: String, arity: nat, minArity: nat, trimSpace: bool, trimRightSpace1st: bool)

  /** `g_func_infos`, in table order. */
  const FuncInfos: seq<FuncInfo> := [
    FuncInfo("patsubst", 3, 3, false, false),
    FuncInfo("strip", 1, 1, false, false),
    FuncInfo("subst", 3, 3, false, false),
    FuncInfo("findstring", 2, 2, false, false),
    FuncInfo("filter", 2, 2, false, false),
    FuncInfo("filter-out", 2, 2, false, false),
    FuncInfo("sort", 1, 1, false, false),
    FuncInfo("word", 2, 2, false, false),
    FuncInfo("wordlist", 3, 3, false, false),
    FuncInfo("words", 1, 1, false, false),
    FuncInfo("firstword", 1, 1, false, false),
    FuncInfo("lastword", 1, 1, false, false),

    FuncInfo("join", 2, 2, false, false),
    FuncInfo("wildcard", 1, 1, false, false),
    FuncInfo("dir", 1, 1, false, false),
    FuncInfo("notdir", 1, 1, false, false),
    FuncInfo("suffix", 1, 1, false, false),
    FuncInfo("basename", 1, 1, false, false),
    FuncInfo("addsuffix", 2, 2, false, false),
    FuncInfo("addprefix", 2, 2, false, false),
    FuncInfo("realpath", 1, 1, false, false),
    FuncInfo("abspath", 1, 1, false, false),

    FuncInfo("if", 3, 2, false, true),
    FuncInfo("and", 0, 0, true, false),
    FuncInfo("or", 0, 0, true, false),

    FuncInfo("value", 1, 1, false, false),
    FuncInfo("eval", 1, 1, false, false),
    FuncInfo("shell", 1, 1, false, false),
    FuncInfo("call", 0, 0, false, false),
    FuncInfo("foreach", 3, 3, false, false),

    FuncInfo("origin", 1, 1, false, false),
    FuncInfo("flavor", 1, 1, false, false),

    FuncInfo("info", 1, 1, false, false),
    FuncInfo("warning", 1, 1, false, false),
    FuncInfo("error", 1, 1, false, false)
  ]

  /** No name occurs in `infos` twice. */
  predicate NamesDistinct(infos: seq<FuncInfo>) {
    forall i, j :: 0 <= i < j < |infos| ==> infos[i].name != infos[j].name
  }

  /** Whether `name` is the name of some entry of `infos`. */
  predicate Named(infos: seq<FuncInfo>, name: String) {
    exists i :: 0 <= i < |infos| && infos[i].name == name
  }

  /**
   * A fingerprint of a name: its length, its first character and its middle
   * character.  It tells the table's names apart, which lets the proof below
   * compare numbers instead of strings.
   */
  function NameKey(s: String): int {
    if |s| == 0 then 0 else |s| * 1000000 + s[0] as int * 1000 + s[|s| / 2] as int
  }

  /** The table position of the entry whose name has fingerprint `k`, or -1. */
  function KeyPosition(k: int): int {
    if k == 8112117 then 0 else  // patsubst
    if k == 5115114 then 1 else  // strip
    if k == 5115098 then 2 else  // subst
    if k == 10102116 then 3 else  // findstring
    if k == 6102116 then 4 else  // filter
    if k == 10102114 then 5 else  // filter-out
    if k == 4115114 then 6 else  // sort
    if k == 4119114 then 7 else  // word
    if k == 8119108 then 8 else  // wordlist
    if k == 5119114 then 9 else  // words
    if k == 9102116 then 10 else  // firstword
    if k == 8108119 then 11 else  // lastword
    if k == 4106105 then 12 else  // join
    if k == 8119099 then 13 else  // wildcard
    if k == 3100105 then 14 else  // dir
    if k == 6110100 then 15 else  // notdir
    if k == 6115102 then 16 else  // suffix
    if k == 8098110 then 17 else  // basename
    if k == 9097117 then 18 else  // addsuffix
    if k == 9097114 then 19 else  // addprefix
    if k == 8114112 then 20 else  // realpath
    if k == 7097112 then 21 else  // abspath
    if k == 2105102 then 22 else  // if
    if k == 3097110 then 23 else  // and
    if k == 2111114 then 24 else  // or
    if k == 5118108 then 25 else  // value
    if k == 4101097 then 26 else  // eval
    if k == 5115101 then 27 else  // shell
    if k == 4099108 then 28 else  // call
    if k == 7102101 then 29 else  // foreach
    if k == 6111103 then 30 else  // origin
    if k == 6102118 then 31 else  // flavor
    if k == 4105102 then 32 else  // info
    if k == 7119110 then 33 else  // warning
    if k == 5101114 then 34 else  // error
    -1
  }

  lemma KeyPositions0()
    ensures forall i :: 0 <= i < 2 ==> KeyPosition(NameKey(FuncInfos[i].name)) == i
  {
  }

  lemma KeyPositions2()
    ensures forall i :: 2 <= i < 4 ==> KeyPosition(NameKey(FuncInfos[i].name)) == i
  {
  }

  lemma KeyPositions4()
    ensures forall i :: 4 <= i < 6 ==> KeyPosition(NameKey(FuncInfos[i].name)) == i
  {
  }

  lemma KeyPositions6()
    ensures forall i :: 6 <= i < 8 ==> KeyPosition(NameKey(FuncInfos[i].name)) == i
  {
  }

  lemma KeyPositions8()
    ensures forall i :: 8 <= i < 10 ==> KeyPosition(NameKey(FuncInfos[i].name)) == i
  {
  }

  lemma KeyPositions10()
    ensures forall i :: 10 <= i < 12 ==> KeyPosition(NameKey(FuncInfos[i].name)) == i
  {
  }

  lemma KeyPositions12()
    ensures forall i :: 12 <= i < 14 ==> KeyPosition(NameKey(FuncInfos[i].name)) == i
  {
  }

  lemma KeyPositions14()
    ensures forall i :: 14 <= i < 16 ==> KeyPosition(NameKey(FuncInfos[i].name)) == i
  {
  }

  lemma KeyPositions16()
    ensures forall i :: 16 <= i < 18 ==> KeyPosition(NameKey(FuncInfos[i].name)) == i
  {
  }

  lemma KeyPositions18()
    ensures forall i :: 18 <= i < 20 ==> KeyPosition(NameKey(FuncInfos[i].name)) == i
  {
  }

  lemma KeyPositions20()
    ensures forall i :: 20 <= i < 22 ==> KeyPosition(NameKey(FuncInfos[i].name)) == i
  {
  }

  lemma KeyPositions22()
    ensures forall i :: 22 <= i < 24 ==> KeyPosition(NameKey(FuncInfos[i].name)) == i
  {
  }

  lemma KeyPositions24()
    ensures forall i :: 24 <= i < 26 ==> KeyPosition(NameKey(FuncInfos[i].name)) == i
  {
  }

  lemma KeyPositions26()
    ensures forall i :: 26 <= i < 28 ==> KeyPosition(NameKey(FuncInfos[i].name)) == i
  {
  }

  lemma KeyPositions28()
    ensures forall i :: 28 <= i < 30 ==> KeyPosition(NameKey(FuncInfos[i].name)) == i
  {
  }

  lemma KeyPositions30()
    ensures forall i :: 30 <= i < 32 ==> KeyPosition(NameKey(FuncInfos[i].name)) == i
  {
  }

  lemma KeyPositions32()
    ensures forall i :: 32 <= i < 34 ==> KeyPosition(NameKey(FuncInfos[i].name)) == i
  {
  }

  lemma KeyPositions34()
    ensures forall i :: 34 <= i < |FuncInfos| ==> KeyPosition(NameKey(FuncInfos[i].name)) == i
  {
  }

  /** The entries' names are pairwise distinct, so registering them one by one never meets a duplicate. */
  lemma FuncInfosDistinct()
    ensures NamesDistinct(FuncInfos)
  {
    KeyPositions0();
    KeyPositions2();
    KeyPositions4();
    KeyPositions6();
    KeyPositions8();
    KeyPositions10();
    KeyPositions12();
    KeyPositions14();
    KeyPositions16();
    KeyPositions18();
    KeyPositions20();
    KeyPositions22();
    KeyPositions24();
    KeyPositions26();
    KeyPositions28();
    KeyPositions30();
    KeyPositions32();
    KeyPositions34();
    forall i, j | 0 <= i < j < |FuncInfos| ensures FuncInfos[i].name != FuncInfos[j].name {
      assert KeyPosition(NameKey(FuncInfos[i].name)) == i;
      assert KeyPosition(NameKey(FuncInfos[j].name)) == j;
    }
  }

  /** Every argument-count pair is consistent: the minimum never exceeds the count, and only `if` differs. */
  lemma FuncInfosArity()
    ensures forall i :: 0 <= i < |FuncInfos| ==> FuncInfos[i].minArity <= FuncInfos[i].arity
    ensures forall i :: 0 <= i < |FuncInfos| && FuncInfos[i].minArity != FuncInfos[i].arity ==>
      FuncInfos[i].name == "if"
  {
  }

  /** `m` holds exactly the entries of `infos`, each under its own name. */
  ghost predicate Registers(m: map<String, FuncInfo>, infos: seq<FuncInfo>) {
    (forall name :: name in m ==> Named(infos, name)) &&
    (forall i :: 0 <= i < |infos| ==> infos[i].name in m && m[infos[i].name] == infos[i])
  }

  /** `g_func_info_map`: the registry, keyed by name. */
  class FuncRegistry {
    var infoMap: map<String, FuncInfo>

    /** The map holds the table. */
    ghost predicate Valid()
      reads this
    {
      Registers(infoMap, FuncInfos)
    }

    constructor ()
      ensures infoMap == map[]
    {
      infoMap := map[];
    }

    /** InitFuncTable: registers every entry of the table. */
    method InitFuncTable()
      modifies this
      ensures Valid()
      ensures |infoMap| == |FuncInfos|
    {
      FuncInfosDistinct();
      RegisterAll(FuncInfos);
    }

    /**
     * Starts a fresh map and inserts each entry under its name.  With
     * distinct names the insertion never finds the name already present,
     * which is what CHECK(ok) asserts.
     */
    method RegisterAll(infos: seq<FuncInfo>)
      requires NamesDistinct(infos)
      modifies this
      ensures Registers(infoMap, infos)
      ensures |infoMap| == |infos|
    {
      infoMap := map[];
      for i := 0 to |infos|
        invariant Registers(infoMap, infos[..i])
        invariant |infoMap| == i
      {
        var fi := infos[i];
        assert !Named(infos[..i], fi.name) by {
          forall k | 0 <= k < i ensures infos[..i][k].name != fi.name {
            assert infos[..i][k] == infos[k];
          }
        }
        var ok := fi.name !in infoMap;
        assert ok;
        RegisterOne(infoMap, infos, i);
        infoMap := infoMap[fi.name := fi];
      }
      assert infos[..|infos|] == infos;
    }

    /** GetFuncInfo: the entry named `name`, or nothing when no entry has that name. */
    function GetFuncInfo(name: String): (r: Option<FuncInfo>)
      requires Valid()
      reads this
      ensures r.Some? <==> Named(FuncInfos, name)
      ensures r.Some? ==> r.value.name == name && exists i :: 0 <= i < |FuncInfos| && FuncInfos[i] == r.value
    {
      if name in infoMap then Some(infoMap[name]) else None
    }
  }

  lemma RegisterOne(m: map<String, FuncInfo>, infos: seq<FuncInfo>, i: nat)
    requires i < |infos| && Registers(m, infos[..i]) && infos[i].name !in m
    ensures Registers(m[infos[i].name := infos[i]], infos[..i + 1])
  {
    var m' := m[infos[i].name := infos[i]];
    forall name | name in m' ensures Named(infos[..i + 1], name) {
      if name == infos[i].name {
        assert infos[..i + 1][i] == infos[i];
      } else {
        var k :| 0 <= k < i && infos[..i][k].name == name;
        assert infos[..i + 1][k] == infos[k];
      }
    }
    forall k | 0 <= k < i + 1 ensures infos[k].name in m' && m'[infos[k].name] == infos[k] {
      if k < i {
        assert infos[k] == infos[..i][k];
      }
    }
  }

  /** Each entry is found under its own name, and only there. */
  lemma LookupFindsEntry(reg: FuncRegistry, i: nat)
    requires reg.Valid() && i < |FuncInfos|
    ensures reg.GetFuncInfo(FuncInfos[i].name) == Some(FuncInfos[i])
  {
  }
}
