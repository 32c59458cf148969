/**
 * Mapping the permission word of `!command restrict <trigger> <word>` to the groups allowed to
 * use a command (`mapPermArgToGroups`). Three outcomes are kept apart: an invalid word, no
 * restriction at all, or a list of group names.
 */
module Permissions {
  import opened Wrappers
  import opened JsStrings

  /** `false`, `null`, or the list of groups. */
  datatype GroupsResult = Invalid | Unrestricted | Groups(groups: seq<string>)

  /** The `case` labels that push groups, in the order the `switch` lists them. */
  const TierLabels: seq<string> := ["sub", "mod", "streamer"]

  /** What each of those cases pushes before falling through to the next one;
      the last case ends with `break`. */
  const TierPushes: seq<seq<string>> := [["Subscribers"], ["Moderators", "Channel Editors"], ["Streamer"]]

  /** Entering the `switch` at case `k` runs that case's pushes and every later case's. */
  function FallThrough(k: nat): seq<string>
    requires k <= |TierPushes|
    decreases |TierPushes| - k
  {
    if k == |TierPushes| then [] else TierPushes[k] + FallThrough(k + 1)
  }

  function TierIndex(word: string): (k: nat)
    requires word in TierLabels
    ensures k < |TierLabels| && TierLabels[k] == word
  {
    if word == "sub" then 0 else if word == "mod" then 1 else 2
  }

  /** `permArg.toLowerCase().trim()`, the word the `switch` compares. */
  function Normalize(permArg: string): (r: string)
    ensures IsTrimmed(r) && |r| <= |permArg|
    ensures IsTrimmed(permArg) && ToLowerAscii(permArg) == permArg ==> r == permArg
    ensures forall i :: 0 <= i < |r| ==> !('A' <= r[i] <= 'Z')
  {
    var lowered := ToLowerAscii(permArg);
    var r := Trim(lowered);
    TrimKeepsLowerCase(lowered);
    assert IsTrimmed(permArg) && ToLowerAscii(permArg) == permArg ==> r == permArg by {
      if IsTrimmed(permArg) && ToLowerAscii(permArg) == permArg {
        TrimOfTrimmed(permArg);
      }
    }
    r
  }

  /** Case is ignored: arguments that lower-case alike normalise alike. */
  lemma NormalizeIgnoresCase(p: string, q: string)
    requires ToLowerAscii(p) == ToLowerAscii(q)
    ensures Normalize(p) == Normalize(q)
  {
  }

  /** `permArg == null || permArg === ""` gives `false`; `all`/`everyone` give `null`; the three
      tier words give their tier and every tier above it; any other word is a custom group
      named by the trimmed word with its case kept. */
  function MapPermArgToGroups(permArg: Option<string>): (r: GroupsResult)
    ensures r.Invalid? <==> permArg == None || permArg.value == ""
    ensures r.Unrestricted? <==> (permArg.Some? && permArg.value != "" &&
      (Normalize(permArg.value) == "all" || Normalize(permArg.value) == "everyone"))
    ensures r.Groups? ==> r.groups != [] && (r.groups == [Trim(permArg.value)] || r.groups[|r.groups| - 1] == "Streamer")
  {
    match permArg
    case None => Invalid
    case Some(p) =>
      if p == "" then Invalid
      else
        var normalized := Normalize(p);
        if normalized == "all" || normalized == "everyone" then Unrestricted
        else if normalized in TierLabels then
          var k := TierIndex(normalized);
          StreamerLast(k);
          Groups(FallThrough(k))
        else Groups([Trim(p)])
  }

  /** Every tier's list ends with the streamer. */
  lemma {:induction false} StreamerLast(k: nat)
    requires k < |TierPushes|
    ensures FallThrough(k) != [] && FallThrough(k)[|FallThrough(k)| - 1] == "Streamer"
    decreases |TierPushes| - k
  {
    if k + 1 < |TierPushes| {
      StreamerLast(k + 1);
    }
  }

  /** The fall-through makes tiers nested: a lower tier's groups end with every higher tier's. */
  lemma {:induction false} TiersNested(j: nat, k: nat)
    requires j <= k <= |TierPushes|
    ensures |FallThrough(k)| <= |FallThrough(j)|
    ensures FallThrough(j)[|FallThrough(j)| - |FallThrough(k)|..] == FallThrough(k)
    decreases k - j
  {
    if j < k {
      TiersNested(j + 1, k);
      var a, b := FallThrough(j + 1), FallThrough(k);
      assert FallThrough(j)[|FallThrough(j)| - |b|..] == a[|a| - |b|..];
    }
  }

  /** The three tier words, compared after lower-casing and trimming. */
  lemma NamedTiers(p: string)
    requires p != ""
    ensures Normalize(p) == "sub" ==>
      MapPermArgToGroups(Some(p)) == Groups(["Subscribers", "Moderators", "Channel Editors", "Streamer"])
    ensures Normalize(p) == "mod" ==>
      MapPermArgToGroups(Some(p)) == Groups(["Moderators", "Channel Editors", "Streamer"])
    ensures Normalize(p) == "streamer" ==>
      MapPermArgToGroups(Some(p)) == Groups(["Streamer"])
  {
    TierLists();
    var n := Normalize(p);
    if n == "sub" || n == "mod" || n == "streamer" {
      assert n in TierLabels;
      assert n != "all" && n != "everyone";
    }
  }

  lemma TierLists()
    ensures FallThrough(2) == ["Streamer"]
    ensures FallThrough(1) == ["Moderators", "Channel Editors", "Streamer"]
    ensures FallThrough(0) == ["Subscribers", "Moderators", "Channel Editors", "Streamer"]
  {
    assert FallThrough(3) == [];
  }

  /** Any other non-empty word is a single custom group, trimmed but with its case kept. */
  lemma CustomGroup(p: string)
    requires p != ""
    requires Normalize(p) !in ["all", "everyone", "sub", "mod", "streamer"]
    ensures MapPermArgToGroups(Some(p)) == Groups([Trim(p)])
  {
  }

  /** `Mod` is the moderator tier. */
  lemma ModExample(p: string)
    requires p == "Mod"
    ensures MapPermArgToGroups(Some(p)) == Groups(["Moderators", "Channel Editors", "Streamer"])
  {
    var lower := ToLowerAscii(p);
    assert lower == "mod";
    TrimOfTrimmed(lower);
    NamedTiers(p);
  }
}
