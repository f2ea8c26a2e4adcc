/**
 * The built-in table of instance types (`PredefinedTypes`), the rule that decides which
 * of them are offered by default (`DEFAULT_ENABLE`) and the construction of a type from
 * a table row (`VmType.create`).
 */
module Catalog {
  import opened Wrappers
  import opened InstanceTypes
  import JavaStrings

  /** A row of the table: the enum constant, the type name and its shape. */
  datatype PredefinedType = PredefinedType(
    constant: string,
    name: string,
    cpu: Int32,
    disk: Int32,
    memory: Int32,
    ethernetInterfaceLimit: Int32)

  /** Representative rows of the table, in its declaration order. */
  const PREDEFINED: seq<PredefinedType> := [
    PredefinedType("C1MEDIUM", "c1.medium", 2, 350, 1741, 2),
    PredefinedType("C5LARGE", "c5.large", 2, 10, 4096, 3),
    PredefinedType("M1SMALL", "m1.small", 1, 160, 1741, 2),
    PredefinedType("M5DLARGE", "m5d.large", 2, 75, 8192, 3),
    PredefinedType("M5LARGE", "m5.large", 2, 10, 8192, 3),
    PredefinedType("T1MICRO", "t1.micro", 1, 5, 628, 2),
    PredefinedType("T2MICRO", "t2.micro", 1, 10, 1024, 2),
    PredefinedType("T2NANO", "t2.nano", 1, 5, 512, 2)
  ]

  /** The names of the table's rows. */
  function CatalogNames(): set<string> {
    set t | t in PREDEFINED :: t.name
  }

  /** Only the current-generation families "t2." and "m5." are offered by default. */
  function DefaultEnable(t: PredefinedType): (r: bool)
    ensures r <==> |t.name| >= 3 && (t.name[..3] == "t2." || t.name[..3] == "m5.")
  {
    JavaStrings.StartsWith(t.name, "t2.") || JavaStrings.StartsWith(t.name, "m5.")
  }

  /** The enum constant a type name is looked up under: upper-cased, dots removed. */
  function ConstantKey(name: string): (r: string)
    ensures |r| <= |name|
    ensures '.' !in r
    ensures forall c :: c in r ==> !('a' <= c <= 'z')
  {
    JavaStrings.RemoveDots(JavaStrings.ToUpper(name))
  }

  function FindConstant(rows: seq<PredefinedType>, constant: string): (r: Option<PredefinedType>)
    ensures r.Some? ==> r.value in rows && r.value.constant == constant
    ensures r.None? ==> forall t :: t in rows ==> t.constant != constant
  {
    if rows == [] then None
    else if rows[0].constant == constant then Some(rows[0])
    else FindConstant(rows[1..], constant)
  }

  /** `PredefinedTypes.valueOf(constant)`; `None` where Java throws IllegalArgumentException. */
  function ValueOf(constant: string): (r: Option<PredefinedType>)
    ensures r.Some? ==> r.value in PREDEFINED && r.value.constant == constant
    ensures r.None? <==> forall t :: t in PREDEFINED ==> t.constant != constant
  {
    FindConstant(PREDEFINED, constant)
  }

  /** `VmType.create(name, t.cpu, t.disk, t.memory, t.ethernetInterfaceLimit, DEFAULT_ENABLE(t))` */
  function Create(name: string, t: PredefinedType): (r: VmType)
    ensures r.name == name && r.enabled == DefaultEnable(t)
    ensures r.cpu == t.cpu && r.disk == t.disk && r.memory == t.memory
    ensures r.networkInterfaces == t.ethernetInterfaceLimit
  {
    VmType(name, t.cpu, t.disk, t.memory, t.ethernetInterfaceLimit, DefaultEnable(t))
  }

  /** The type a table row seeds the registry with. */
  function Seed(t: PredefinedType): VmType {
    Create(t.name, t)
  }

  /** Of the table's rows, exactly the "t2." and "m5." names are offered by default; "m5d.large" is not. */
  lemma DefaultEnabledRows()
    ensures forall i :: 0 <= i < |PREDEFINED| ==>
      (DefaultEnable(PREDEFINED[i]) <==> i == 4 || i == 6 || i == 7)
  {
    forall i | 0 <= i < |PREDEFINED|
      ensures DefaultEnable(PREDEFINED[i]) <==> i == 4 || i == 6 || i == 7
    {
      var n := PREDEFINED[i].name;
      assert n[..3] == [n[0], n[1], n[2]];
    }
  }

  /** The table's names are pairwise distinct, and so are its constants. */
  lemma CatalogDistinct()
    ensures forall i, j :: 0 <= i < j < |PREDEFINED| ==>
      PREDEFINED[i].name != PREDEFINED[j].name && PREDEFINED[i].constant != PREDEFINED[j].constant
  {
  }

  /** Each row's constant is its name upper-cased without dots. */
  lemma ConstantsMatchNames()
    ensures forall i :: 0 <= i < |PREDEFINED| ==> ConstantKey(PREDEFINED[i].name) == PREDEFINED[i].constant
  {
    forall i | 0 <= i < |PREDEFINED|
      ensures ConstantKey(PREDEFINED[i].name) == PREDEFINED[i].constant
    {
      var t := PREDEFINED[i];
      assert KeyMatchesFrom(t.name, t.constant, 0, 0);
      KeyMatchesSound(t.name, t.constant, 0, 0);
      assert t.name[0..] == t.name && t.constant[0..] == t.constant;
    }
  }

  /**
   * Decides whether `ConstantKey(name[i..]) == constant[j..]` by walking both strings
   * one character at a time.
   */
  predicate KeyMatchesFrom(name: string, constant: string, i: nat, j: nat)
    requires i <= |name| && j <= |constant|
    decreases |name| - i
  {
    if i == |name| then j == |constant|
    else if name[i] == '.' then KeyMatchesFrom(name, constant, i + 1, j)
    else
      j < |constant| && constant[j] == JavaStrings.UpperChar(name[i])
      && KeyMatchesFrom(name, constant, i + 1, j + 1)
  }

  lemma {:induction false} KeyMatchesSound(name: string, constant: string, i: nat, j: nat)
    requires i <= |name| && j <= |constant|
    requires KeyMatchesFrom(name, constant, i, j)
    ensures ConstantKey(name[i..]) == constant[j..]
    decreases |name| - i
  {
    if i < |name| {
      var rest := name[i..];
      assert rest[1..] == name[i + 1..];
      assert JavaStrings.ToUpper(rest) == [JavaStrings.UpperChar(name[i])] + JavaStrings.ToUpper(name[i + 1..]);
      if name[i] == '.' {
        KeyMatchesSound(name, constant, i + 1, j);
      } else {
        KeyMatchesSound(name, constant, i + 1, j + 1);
        assert constant[j..] == [constant[j]] + constant[j + 1..];
      }
    }
  }

  /** When no earlier row has row `i`'s constant, the search finds row `i` from its constant. */
  lemma {:induction false} FindDistinctConstant(rows: seq<PredefinedType>, i: nat)
    requires i < |rows|
    requires forall a :: 0 <= a < i ==> rows[a].constant != rows[i].constant
    ensures FindConstant(rows, rows[i].constant) == Some(rows[i])
  {
    if i > 0 {
      FindDistinctConstant(rows[1..], i - 1);
    }
  }

  /** Each row's constant is its name upper-cased without dots, so `valueOf` finds the row from its name. */
  lemma ValueOfCatalogName(i: nat)
    requires i < |PREDEFINED|
    ensures ValueOf(ConstantKey(PREDEFINED[i].name)) == Some(PREDEFINED[i])
  {
    ConstantsMatchNames();
    CatalogDistinct();
    FindDistinctConstant(PREDEFINED, i);
  }

  /** Every row of the table is found by `valueOf` from its name. */
  lemma CatalogResolvable()
    ensures forall i :: 0 <= i < |PREDEFINED| ==> ValueOf(ConstantKey(PREDEFINED[i].name)) == Some(PREDEFINED[i])
  {
    forall i | 0 <= i < |PREDEFINED|
      ensures ValueOf(ConstantKey(PREDEFINED[i].name)) == Some(PREDEFINED[i])
    {
      ValueOfCatalogName(i);
    }
  }

  /** The names of a sequence of rows whose names are pairwise distinct are as many as the rows. */
  lemma {:induction false} NamesCount(rows: seq<PredefinedType>)
    requires forall a, b :: 0 <= a < b < |rows| ==> rows[a].name != rows[b].name
    ensures |set t | t in rows :: t.name| == |rows|
  {
    if rows != [] {
      NamesCount(rows[1..]);
      var tail := set t | t in rows[1..] :: t.name;
      assert (set t | t in rows :: t.name) == {rows[0].name} + tail;
    }
  }

  /** The table has as many names as rows. */
  lemma CatalogNamesCount()
    ensures |CatalogNames()| == |PREDEFINED|
  {
    CatalogDistinct();
    NamesCount(PREDEFINED);
  }
}
