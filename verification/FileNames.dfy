/** Names of recipe files that carry a class variant and a multiconfig, and the way back. */
module FileNames {
  import opened Common

  const MC := "mc:"
  const VIRTUAL := "virtual:"

  /** Where the first colon at or after i stands; the length if there is none. */
  function NextColon(s: string, i: nat): (k: nat)
    requires i <= |s|
    ensures i <= k <= |s| && (k < |s| ==> s[k] == ':')
    ensures forall j :: i <= j < k ==> s[j] != ':'
    decreases |s| - i
  {
    if i == |s| || s[i] == ':' then i else NextColon(s, i + 1)
  }

  /** s.count(":") >= 2 */
  predicate TwoColons(s: string) {
    var k := NextColon(s, 0);
    k < |s| && NextColon(s, k + 1) < |s|
  }

  function RealFn2Virtual(realfn: string, cls: string, mc: string): string {
    var name := if cls != "" then VIRTUAL + cls + ":" + realfn else realfn;
    if mc != "" then MC + mc + ":" + name else name
  }

  /** File, class and multiconfig of a name. */
  function VirtualFn2RealFn(virtualfn: string): (string, string, string) {
    var (mc, rest) := SplitMc(virtualfn);
    var (fn, cls) := SplitVirtual(rest);
    (fn, cls, mc)
  }

  function SplitMc(name: string): (string, string) {
    if StartsWith(name, MC) && TwoColons(name) then
      var second := NextColon(name, 3);
      if second < |name| then (name[3..second], name[second + 1..]) else ("", name)
    else ("", name)
  }

  function SplitVirtual(name: string): (string, string) {
    if StartsWith(name, VIRTUAL) then
      var last := LastColon(name);
      (name[last + 1..], if last > 8 then name[8..last] else "")
    else (name, "")
  }

  /** What the names look like. */
  lemma NamesShown(mc: string, cls: string, realfn: string)
    requires mc == "arm" && cls == "native" && realfn == "a.bb"
    ensures RealFn2Virtual(realfn, cls, mc) == "mc:arm:virtual:native:a.bb"
    ensures RealFn2Virtual(realfn, cls, "") == "virtual:native:a.bb"
    ensures RealFn2Virtual(realfn, "", mc) == "mc:arm:a.bb" && RealFn2Virtual(realfn, "", "") == "a.bb"
  {
    assert MC + mc + ":" + (VIRTUAL + cls + ":" + realfn) == "mc:arm:virtual:native:a.bb";
  }

  /** What the parts of a name may not look like. */
  predicate Nameable(realfn: string, cls: string, mc: string) {
    && ':' !in mc
    && (if cls != "" then ':' !in realfn
        else !StartsWith(realfn, VIRTUAL) && (mc != "" || !(StartsWith(realfn, MC) && TwoColons(realfn))))
  }

  lemma SplitVirtualExact(realfn: string, cls: string)
    ensures SplitVirtual(RealFn2Virtual(realfn, cls, "")) == (realfn, cls) <==>
            if cls != "" then ':' !in realfn else !StartsWith(realfn, VIRTUAL)
  {
    var name := RealFn2Virtual(realfn, cls, "");
    var last := LastColon(name);
    if cls != "" {
      var n := 8 + |cls|;
      assert name == VIRTUAL + cls + ":" + realfn && name[n] == ':';
      assert name[n + 1..] == realfn && name[8..n] == cls;
      assert last >= n;
      if last > n {
        assert realfn[last - n - 1] == ':';
        assert |name[last + 1..]| < |realfn|;
      } else {
        forall j | 0 <= j < |realfn| ensures realfn[j] != ':' {
          assert name[n + 1 + j] == realfn[j];
        }
      }
    } else if StartsWith(realfn, VIRTUAL) {
      assert realfn[7] == VIRTUAL[7] by {
        assert realfn[..8][7] == realfn[7];
      }
      assert |name[last + 1..]| < |realfn|;
    }
  }

  lemma SplitMcExact(name: string, mc: string)
    ensures SplitMc(if mc != "" then MC + mc + ":" + name else name) == (mc, name) <==>
            if mc != "" then ':' !in mc else !(StartsWith(name, MC) && TwoColons(name))
  {
    if mc != "" {
      var full := MC + mc + ":" + name;
      var n := 3 + |mc|;
      assert full[2] == ':' && full[n] == ':';
      assert full[..3] == MC && full[3..n] == mc && full[n + 1..] == name;
      assert NextColon(full, 0) == 2;
      var second := NextColon(full, 3);
      assert second <= n;
      if second < n {
        assert mc[second - 3] == ':';
        assert |full[3..second]| < |mc|;
      } else {
        forall j | 0 <= j < |mc| ensures mc[j] != ':' {
          assert full[3 + j] == mc[j];
        }
      }
    } else if StartsWith(name, MC) && TwoColons(name) {
      assert name[..3][2] == name[2] && name[..3][0] == name[0] && name[..3][1] == name[1];
      assert NextColon(name, 0) == 2;
      var second := NextColon(name, 3);
      assert |name[second + 1..]| < |name|;
    }
  }

  /** When the multiconfig does not come off as it was put on, it or what is left is shorter. */
  lemma SplitMcShortens(name: string, mc: string)
    ensures var full := if mc != "" then MC + mc + ":" + name else name;
            SplitMc(full) != (mc, name) ==>
              if mc != "" then SplitMc(full).0 != mc else |SplitMc(full).1| < |name|
  {
    if mc != "" {
      SplitMcExact(name, mc);
      var full := MC + mc + ":" + name;
      var n := 3 + |mc|;
      assert full[2] == ':' && full[n] == ':' && full[3..n] == mc && full[n + 1..] == name;
      assert NextColon(full, 0) == 2 && full[..3] == MC;
    }
  }

  lemma SplitVirtualShort(name: string)
    ensures |SplitVirtual(name).0| <= |name|
  {
  }

  /** A file, its class and its multiconfig come back from the name exactly when the name can carry them. */
  lemma RoundTripExact(realfn: string, cls: string, mc: string)
    ensures VirtualFn2RealFn(RealFn2Virtual(realfn, cls, mc)) == (realfn, cls, mc) <==> Nameable(realfn, cls, mc)
  {
    var name := RealFn2Virtual(realfn, cls, "");
    SplitMcExact(name, mc);
    SplitMcShortens(name, mc);
    SplitVirtualExact(realfn, cls);
    if cls != "" {
      assert name[0] == 'v' && !StartsWith(name, MC);
    } else {
      SplitVirtualShort(SplitMc(name).1);
    }
  }
}
