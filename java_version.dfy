/**
 * The JavaVersion enum of the Xposed utilities: the versions of the Java
 * specification, each with its standard name and a comparison weight, the
 * lookup from a java.specification.version string to a constant, and the
 * "at least" comparison.
 *
 * The weights are the float literals 1.1f ... 1.8f of the enum; the model
 * keeps them as exact tenths (11 ... 18). The nine constants carry eight
 * distinct floats (1.5f twice); mapping each one to its tenths preserves
 * equality and order, so every comparison comes out as it does on the
 * floats.
 */
module XposedUtils {

  /** A constant of the enum, or the Java null reference. */
  datatype Option<T> = None | Some(value: T)

  /** The nine constants, in declaration order. */
  datatype JavaVersion =
    | JAVA_0_9
    | JAVA_1_1
    | JAVA_1_2
    | JAVA_1_3
    | JAVA_1_4
    | JAVA_1_5
    | JAVA_1_6
    | JAVA_1_7
    | JAVA_1_8
  {
    /**
     * The comparison weight in tenths. JAVA_0_9 is the version Android
     * reports; it is not a real Java version and weighs as much as 1.5.
     */
    function Value(): (w: nat)
      ensures 11 <= w <= 18
      ensures this != JAVA_0_9 ==> w == 10 + Ordinal()
    {
      match this
      case JAVA_0_9 => 15
      case JAVA_1_1 => 11
      case JAVA_1_2 => 12
      case JAVA_1_3 => 13
      case JAVA_1_4 => 14
      case JAVA_1_5 => 15
      case JAVA_1_6 => 16
      case JAVA_1_7 => 17
      case JAVA_1_8 => 18
    }

    /** The position of the constant in the declaration, as Enum.ordinal() gives it. */
    function Ordinal(): (i: nat)
      ensures i < 9
    {
      match this
      case JAVA_0_9 => 0
      case JAVA_1_1 => 1
      case JAVA_1_2 => 2
      case JAVA_1_3 => 3
      case JAVA_1_4 => 4
      case JAVA_1_5 => 5
      case JAVA_1_6 => 6
      case JAVA_1_7 => 7
      case JAVA_1_8 => 8
    }

    /** toString(): the standard name, a digit, a dot and a digit. */
    function ToString(): (name: string)
      ensures |name| == 3 && name[1] == '.'
      ensures '0' <= name[0] <= '9' && '0' <= name[2] <= '9'
    {
      match this
      case JAVA_0_9 => "0.9"
      case JAVA_1_1 => "1.1"
      case JAVA_1_2 => "1.2"
      case JAVA_1_3 => "1.3"
      case JAVA_1_4 => "1.4"
      case JAVA_1_5 => "1.5"
      case JAVA_1_6 => "1.6"
      case JAVA_1_7 => "1.7"
      case JAVA_1_8 => "1.8"
    }

    /**
     * atLeast(requiredVersion): this version weighs at least as much as the
     * required one. Every version is at least 1.1, and 1.8 is at least every
     * version.
     */
    predicate AtLeast(requiredVersion: JavaVersion)
      ensures requiredVersion == JAVA_1_1 ==> AtLeast(requiredVersion)
      ensures this == JAVA_1_8 ==> AtLeast(requiredVersion)
    {
      Value() >= requiredVersion.Value()
    }

    /**
     * get(): the constant named by the java.specification.version string,
     * or None (null) when the string names none of them. The system
     * property is passed in as specificationVersion.
     */
    static function Get(specificationVersion: string): (r: Option<JavaVersion>)
      ensures r.Some? ==> r.value.ToString() == specificationVersion
      ensures r.None? <==> forall v: JavaVersion :: v.ToString() != specificationVersion
    {
      if specificationVersion == "0.9" then Some(JAVA_0_9)
      else if specificationVersion == "1.1" then Some(JAVA_1_1)
      else if specificationVersion == "1.2" then Some(JAVA_1_2)
      else if specificationVersion == "1.3" then Some(JAVA_1_3)
      else if specificationVersion == "1.4" then Some(JAVA_1_4)
      else if specificationVersion == "1.5" then Some(JAVA_1_5)
      else if specificationVersion == "1.6" then Some(JAVA_1_6)
      else if specificationVersion == "1.7" then Some(JAVA_1_7)
      else if specificationVersion == "1.8" then Some(JAVA_1_8)
      else None
    }
  }

  /** Looking up a constant's own name gives that constant back. */
  lemma GetToString(v: JavaVersion)
    ensures JavaVersion.Get(v.ToString()) == Some(v)
  {
  }

  /** No two constants share a name, so the name identifies the constant. */
  lemma ToStringInjective(a: JavaVersion, b: JavaVersion)
    requires a.ToString() == b.ToString()
    ensures a == b
  {
  }

  /** Strings other than the nine names are unknown versions. */
  lemma GetUnknown()
    ensures JavaVersion.Get("") == None
    ensures JavaVersion.Get("2.0") == None
    ensures JavaVersion.Get("1.5.1") == None
    ensures JavaVersion.Get("1.9") == None
  {
  }

  lemma AtLeastReflexive(v: JavaVersion)
    ensures v.AtLeast(v)
  {
  }

  lemma AtLeastTotal(a: JavaVersion, b: JavaVersion)
    ensures a.AtLeast(b) || b.AtLeast(a)
  {
  }

  lemma AtLeastTransitive(a: JavaVersion, b: JavaVersion, c: JavaVersion)
    requires a.AtLeast(b) && b.AtLeast(c)
    ensures a.AtLeast(c)
  {
  }

  /** JAVA_0_9 and JAVA_1_5 are distinct but each is at least the other: atLeast is a preorder, not an order. */
  lemma AtLeastNotAntisymmetric()
    ensures JAVA_0_9 != JAVA_1_5
    ensures JAVA_0_9.AtLeast(JAVA_1_5) && JAVA_1_5.AtLeast(JAVA_0_9)
  {
  }

  /** Two constants are equivalent under atLeast exactly when they are equal or are JAVA_0_9 and JAVA_1_5. */
  lemma AtLeastEquivalence(a: JavaVersion, b: JavaVersion)
    ensures (a.AtLeast(b) && b.AtLeast(a)) <==>
            (a == b || {a, b} == {JAVA_0_9, JAVA_1_5})
  {
  }

  /** Among the real Java versions 1.1 to 1.8, atLeast follows the declaration order. */
  lemma AtLeastFollowsDeclarationOrder(a: JavaVersion, b: JavaVersion)
    requires a != JAVA_0_9 && b != JAVA_0_9
    ensures a.AtLeast(b) <==> b.Ordinal() <= a.Ordinal()
  {
  }
}
