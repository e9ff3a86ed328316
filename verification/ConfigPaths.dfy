/** The strings that key a flattened config map, and why they identify elements. */
module ConfigPaths {
  import Strings
  import opened ConfigTree

  const GROUP_PREFIX := "[Group]  "
  const VALUE_PREFIX := "[Value]  "
  const POLICY_PREFIX := "[Policy] "
  const PATH_SEPARATOR := "/"

  function Prefix(kind: Kind): (p: string)
    ensures |p| == 9
  {
    match kind
    case GroupKind => GROUP_PREFIX
    case ValueKind => VALUE_PREFIX
    case PolicyKind => POLICY_PREFIX
  }

  /** Each segment with a slash in front of it. */
  function PathString(segs: seq<string>): string {
    if segs == [] then "" else PathString(segs[..|segs| - 1]) + PATH_SEPARATOR + segs[|segs| - 1]
  }

  function FqPath(kind: Kind, segs: seq<string>): string {
    Prefix(kind) + PathString(segs)
  }

  function FqPathOf(x: Comparable): string {
    FqPath(x.body.Kind(), x.Segments())
  }

  predicate SlashFree(s: string) {
    '/' !in s
  }

  lemma ValidIsSlashFree(id: string)
    requires ValidConfigID(id)
    ensures SlashFree(id)
  {
    forall c | c in id ensures c != '/' {
      var i :| 0 <= i < |id| && id[i] == c;
    }
  }

  lemma PathStringSnoc(segs: seq<string>, k: string)
    ensures PathString(segs + [k]) == PathString(segs) + PATH_SEPARATOR + k
  {
    assert (segs + [k])[..|segs|] == segs;
  }

  /** A string splits in only one way at its last slash. */
  lemma LastSlashUnique(a: string, k: string, b: string, l: string)
    requires SlashFree(k) && SlashFree(l)
    requires a + PATH_SEPARATOR + k == b + PATH_SEPARATOR + l
    ensures a == b && k == l
  {
    var s := a + PATH_SEPARATOR + k;
    assert s[|a|] == '/' && s[|b|] == '/';
    assert |a| == |b|;
    assert a == s[..|a|] && b == s[..|b|];
    assert k == s[|a| + 1..] && l == s[|b| + 1..];
  }

  /** Paths of legal names are recovered from their strings. */
  lemma {:induction false} PathStringInjective(a: seq<string>, b: seq<string>)
    requires LegalPath(a) && LegalPath(b)
    requires PathString(a) == PathString(b)
    ensures a == b
  {
    if a != [] && b != [] {
      var a', b' := a[..|a| - 1], b[..|b| - 1];
      ValidIsSlashFree(a[|a| - 1]);
      ValidIsSlashFree(b[|b| - 1]);
      LastSlashUnique(PathString(a'), a[|a| - 1], PathString(b'), b[|b| - 1]);
      PathStringInjective(a', b');
      assert a == a' + [a[|a| - 1]] && b == b' + [b[|b| - 1]];
    }
  }

  /** Two elements with legal addresses share a key of the config map only if they share kind and address. */
  lemma FqPathInjective(k1: Kind, a: seq<string>, k2: Kind, b: seq<string>)
    requires LegalPath(a) && LegalPath(b)
    requires FqPath(k1, a) == FqPath(k2, b)
    ensures k1 == k2 && a == b
  {
    var s := FqPath(k1, a);
    assert s[..9] == Prefix(k1) && s[..9] == Prefix(k2);
    assert Prefix(k1)[1] == Prefix(k2)[1];
    assert s[9..] == PathString(a) && s[9..] == PathString(b);
    PathStringInjective(a, b);
  }

  /** A usable mod_policy: a relative or absolute path whose elements are all legal names. */
  predicate ValidModPolicy(modPolicy: string) {
    && modPolicy != ""
    && var trimmed := if modPolicy[0] == '/' then modPolicy[1..] else modPolicy;
       forall piece | piece in Strings.Split(trimmed, '/') :: ValidConfigID(piece)
  }
}
