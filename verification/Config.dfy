/** The message codes of ServerIList/Config.h and the search for one. */
module Config {

  const EN_REGISTER := 1
  const EN_LOGIN := 2
  const EN_LOGOUT := 3
  const GR_GROUP_LIST := 10
  const GR_CREATE_GROUP := 11
  const GR_REMOVE_USER := 13
  const GR_CLOSE_GROUP := 14
  const GR_SET_STATUS := 15
  const GR_INVITE_USER := 16
  const LST_ADD_ITEM := 20
  const LST_REMOVE_ITEM := 21
  const LST_SET_ITEM := 22
  const RE_RESTORE := 40
  const PGM_SCC_LOGIN := 100
  const PGM_SCC_REGISTER := 101
  const PGM_SCC_ACTE_CREATED := 102
  const PGM_GET_GROUPS_LIST := 106
  const PGM_CTR_NEW_USER := 110
  const PGM_CTR_STATUS_CHANGED := 112
  const PGM_CTR_GROUP_CLOSED := 113
  const PGM_CTR_USER_LEAVE := 114
  const LST_SCC_ADD_ITEM := 200
  const LST_SCC_REMOVE_ITEM := 201
  const LST_SCC_SET_ITEM := 202
  const RE_GET_RESTORE := 400

  // The table, family by family.
  const EN_GR_CODES: seq<int> := [1, 2, 3, 10, 11, 12, 13, 14, 15, 16]
  const LST_CH_RE_CODES: seq<int> := [20, 21, 22, 23, 24, 30, 40]
  const PGM_SCC_CTR_CODES: seq<int> := [101, 102, 103, 104, 105, 110, 111, 112, 113, 114]
  const PGM_ERR_MER_CODES: seq<int> := [120, 121, 122, 123, 124, 125, 130, 131]
  const LST_SCC_AND_LATER_CODES: seq<int> := [200, 201, 202, 203, 220, 221, 300, 301, 400, 500]

  const ALL_MESSAGES_CODES: seq<int> :=
    EN_GR_CODES + LST_CH_RE_CODES + PGM_SCC_CTR_CODES + PGM_ERR_MER_CODES + LST_SCC_AND_LATER_CODES

  ghost predicate StrictlySorted(codes: seq<int>) {
    forall i, j :: 0 <= i < j < |codes| ==> codes[i] < codes[j]
  }

  lemma SortedConcat(low: seq<int>, high: seq<int>)
    requires StrictlySorted(low) && StrictlySorted(high)
    requires |low| > 0 && |high| > 0 && low[|low| - 1] < high[0]
    ensures StrictlySorted(low + high)
  {
  }

  lemma CodesAreSorted()
    ensures StrictlySorted(ALL_MESSAGES_CODES)
  {
    SortedConcat(EN_GR_CODES, LST_CH_RE_CODES);
    SortedConcat(EN_GR_CODES + LST_CH_RE_CODES, PGM_SCC_CTR_CODES);
    SortedConcat(EN_GR_CODES + LST_CH_RE_CODES + PGM_SCC_CTR_CODES, PGM_ERR_MER_CODES);
    SortedConcat(EN_GR_CODES + LST_CH_RE_CODES + PGM_SCC_CTR_CODES + PGM_ERR_MER_CODES, LST_SCC_AND_LATER_CODES);
  }

  lemma CodeRange(code: int)
    requires code in ALL_MESSAGES_CODES
    ensures 1 <= code <= 500
  {
    CodesAreSorted();
    var i :| 0 <= i < |ALL_MESSAGES_CODES| && ALL_MESSAGES_CODES[i] == code;
    assert ALL_MESSAGES_CODES[0] == 1 && ALL_MESSAGES_CODES[|ALL_MESSAGES_CODES| - 1] == 500;
    assert 0 < i ==> ALL_MESSAGES_CODES[0] < code;
  }

  /** The binary search, over any strictly sorted table. */
  method FindMsgCode(codes: seq<int>, code: int) returns (found: bool)
    requires StrictlySorted(codes)
    ensures found <==> code in codes
  {
    var left, right := 0, |codes| - 1;
    while left <= right
      invariant 0 <= left <= right + 1 <= |codes|
      invariant forall i :: 0 <= i < left ==> codes[i] < code
      invariant forall i :: right < i < |codes| ==> code < codes[i]
    {
      var middle := (left + right) / 2;
      if codes[middle] > code {
        right := middle - 1;
      } else if codes[middle] < code {
        left := middle + 1;
      } else {
        return true;
      }
    }
    return false;
  }
  /** The codes of the program, in ranges. */
  lemma CodesInRanges(code: int)
    ensures code in ALL_MESSAGES_CODES <==>
              || 1 <= code <= 3 || 10 <= code <= 16 || 20 <= code <= 24 || code == 30 || code == 40
              || 101 <= code <= 105 || 110 <= code <= 114 || 120 <= code <= 125 || 130 <= code <= 131
              || 200 <= code <= 203 || 220 <= code <= 221 || 300 <= code <= 301 || code == 400 || code == 500
  {
    assert code in EN_GR_CODES <==> 1 <= code <= 3 || 10 <= code <= 16;
    assert code in LST_CH_RE_CODES <==> 20 <= code <= 24 || code == 30 || code == 40;
    assert code in PGM_SCC_CTR_CODES <==> 101 <= code <= 105 || 110 <= code <= 114;
    assert code in PGM_ERR_MER_CODES <==> 120 <= code <= 125 || 130 <= code <= 131;
    assert code in LST_SCC_AND_LATER_CODES <==>
             || 200 <= code <= 203 || 220 <= code <= 221 || 300 <= code <= 301 || code == 400 || code == 500;
  }
}
