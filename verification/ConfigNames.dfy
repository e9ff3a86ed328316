/** Which names a configuration may use and which mod_policy strings are usable. */
module ConfigNames {
  import opened Wrappers
  import Strings
  import opened ConfigTree
  import opened ConfigPaths
  import opened ConfigUpdate
  import opened Patterns

  // ----- the patterns for names -----

  lemma DotOrDash(c: char)
    ensures InClass(".-", c) <==> c == '.' || c == '-'
  {
    InSingle('.', "-", c);
    InSingle('-', "", c);
    assert ".-" == ['.'] + "-" && "-" == ['-'] + "";
  }

  lemma ConfigClass(c: char)
    ensures InClass("a-zA-Z0-9.-", c) <==> AllowedChar(c)
  {
    InRange('a', 'z', "A-Z0-9.-", c);
    InRange('A', 'Z', "0-9.-", c);
    InRange('0', '9', ".-", c);
    DotOrDash(c);
    assert "a-zA-Z0-9.-" == ['a', '-', 'z'] + "A-Z0-9.-";
    assert "A-Z0-9.-" == ['A', '-', 'Z'] + "0-9.-";
    assert "0-9.-" == ['0', '-', '9'] + ".-";
  }

  lemma ChannelClass(c: char)
    ensures InClass("a-z", c) <==> 'a' <= c <= 'z'
    ensures InClass("a-z0-9.-", c) <==> 'a' <= c <= 'z' || '0' <= c <= '9' || c == '.' || c == '-'
  {
    InRange('a', 'z', "", c);
    InRange('a', 'z', "0-9.-", c);
    InRange('0', '9', ".-", c);
    DotOrDash(c);
    assert "a-z" == ['a', '-', 'z'] + "" && "a-z0-9.-" == ['a', '-', 'z'] + "0-9.-";
    assert "0-9.-" == ['0', '-', '9'] + ".-";
  }

  /** Names of config elements: the pattern matches all of the name, which is neither too long nor special. */
  lemma ConfigNamesAre(id: string)
    ensures ValidConfigID(id) <==>
            && 0 < |id| <= 249 && id != "." && id != ".."
            && FindString("a-zA-Z0-9.-", "a-zA-Z0-9.-", id) == id
  {
    if id != "" {
      FindWhole("a-zA-Z0-9.-", "a-zA-Z0-9.-", id);
      forall i | 0 <= i < |id| ensures InClass("a-zA-Z0-9.-", id[i]) <==> AllowedChar(id[i]) { ConfigClass(id[i]); }
    }
  }

  lemma ChannelNamesAre(id: string)
    ensures ValidChannelID(id) <==> 0 < |id| <= 249 && FindString("a-z", "a-z0-9.-", id) == id
  {
    if id != "" {
      FindWhole("a-z", "a-z0-9.-", id);
      ChannelClass(id[0]);
      forall i | 0 <= i < |id|
        ensures InClass("a-z0-9.-", id[i]) <==>
          'a' <= id[i] <= 'z' || '0' <= id[i] <= '9' || id[i] == '.' || id[i] == '-'
      {
        ChannelClass(id[i]);
      }
    }
  }

  // ----- mod_policy -----

  /** One or more legal names with slashes between them, and perhaps one in front. */
  ghost predicate IsPolicyPath(modPolicy: string, names: seq<string>) {
    && names != [] && LegalPath(names)
    && (modPolicy == Strings.Join(names, '/') || modPolicy == "/" + Strings.Join(names, '/'))
  }

  lemma LegalHasNoSlash(names: seq<string>)
    requires LegalPath(names)
    ensures forall i | 0 <= i < |names| :: '/' !in names[i]
  {
    forall i | 0 <= i < |names| ensures '/' !in names[i] { ValidIsSlashFree(names[i]); }
  }

  /** The usable mod_policies are exactly the paths of legal names. */
  lemma ModPoliciesAre(modPolicy: string)
    ensures ValidModPolicy(modPolicy) <==> exists names :: IsPolicyPath(modPolicy, names)
  {
    if ValidModPolicy(modPolicy) {
      var trimmed := if modPolicy[0] == '/' then modPolicy[1..] else modPolicy;
      var names := Strings.Split(trimmed, '/');
      Strings.JoinSplit(trimmed, '/');
      assert modPolicy[0] == '/' ==> modPolicy == "/" + modPolicy[1..];
      assert IsPolicyPath(modPolicy, names);
    }
    if names :| IsPolicyPath(modPolicy, names) {
      PathIsUsable(modPolicy, names);
    }
  }

  lemma JoinStart(names: seq<string>)
    requires names != [] && LegalPath(names)
    ensures Strings.Join(names, '/') != "" && Strings.Join(names, '/')[0] != '/'
  {
    LegalHasNoSlash(names);
    assert names[0] != "" && names[0][0] in names[0];
  }

  lemma PathIsUsable(modPolicy: string, names: seq<string>)
    requires IsPolicyPath(modPolicy, names)
    ensures ValidModPolicy(modPolicy)
  {
    JoinStart(names);
    LegalHasNoSlash(names);
    Strings.SplitJoin(names, '/');
    var trimmed := if modPolicy[0] == '/' then modPolicy[1..] else modPolicy;
    assert trimmed == Strings.Join(names, '/');
  }
}
