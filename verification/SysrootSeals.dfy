/**
 * What it means that two products were built as one, field by field: the same
 * hardening profile, the same sealed source and the same allocator
 * configuration. This is what the seal check decides.
 */
module SysrootSeals {
  import opened Sequences
  import opened Wrappers
  import opened SysrootModel

  ghost predicate IsHexadecimal(seal: Scalar) {
    seal.Text? && |seal.text| == 64 && forall c :: c in seal.text ==> c in "0123456789abcdef"
  }

  /** Two settings are the same when they are equal, or each is absent or the default. */
  ghost predicate SameSetting(a: Scalar, b: Scalar, default: Scalar) {
    a == b || (a in {Missing, default} && b in {Missing, default})
  }

  /**
   * The state of an unqualified debug build, beside the static product's
   * manifest: nothing but its configuration, which is the static product's.
   */
  ghost predicate DebugConfiguration(a: Manifest, s: State) {
    && s.fields == {"build_profile", "allocator_backend", "allocator_lifecycle_test_audit", "status"}
    && s.status == Text("materialized-unqualified")
    && a.buildProfile == s.buildProfile == Text("debug")
    && a.backend == s.backend && s.backend in {Text("accepted-c"), Text("native-shadow"), Text("native")}
    && a.audit == s.audit && s.audit in {Flag(false), Flag(true)}
    && !(s.backend == Text("native") && s.audit == Flag(true))
  }

  /** The state of a release build agrees with the static product's manifest after the defaults. */
  ghost predicate ReleaseConfiguration(a: Manifest, s: State) {
    && s.schema == Text("crabc.x86_64-owned-dynamic-materialization/v1")
    && SameSetting(a.backend, s.backend, Text("accepted-c"))
    && SameSetting(a.buildProfile, s.buildProfile, Text("release"))
    && SameSetting(a.audit, s.audit, Flag(false))
  }

  /**
   * Static manifest `a`, dynamic manifest `b` and dynamic state `s` come from
   * one build. A debug build seals its source in the dynamic manifest, any
   * other in the state.
   */
  ghost predicate OneBuild(a: Manifest, b: Manifest, s: State) {
    && a.profile == b.profile && a.profile in {Text("compatibility"), Text("hardened")}
    && IsHexadecimal(a.source)
    && if b.buildProfile == Text("debug") then b.source == a.source && DebugConfiguration(a, s)
       else s.source == a.source && ReleaseConfiguration(a, s)
  }

  lemma HexadecimalIs(seal: Scalar)
    ensures IsSeal(seal) <==> IsHexadecimal(seal)
  {
    if seal.Text? && |seal.text| == 64 {
      forall i | 0 <= i < 64
        ensures seal.text[i] in "0123456789abcdef" <==> '0' <= seal.text[i] <= '9' || 'a' <= seal.text[i] <= 'f'
      {
        HexadecimalDigit(seal.text[i]);
      }
      assert IsHexadecimal(seal) ==> forall i :: 0 <= i < 64 ==> seal.text[i] in "0123456789abcdef";
    }
  }

  /** The seal check accepts exactly the products of one build, and none whose state cannot be read. */
  lemma SealsMatchExactly(a: Manifest, b: Manifest, state: Option<State>)
    ensures SealsMatch(a, b, state) <==> state.Some? && OneBuild(a, b, state.value)
  {
    hide IsSeal, IsHexadecimal;
    HexadecimalIs(a.source);
    HexadecimalIs(b.source);
    if state.Some? {
      HexadecimalIs(state.value.source);
    }
  }
}
