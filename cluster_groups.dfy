/**
 * portmanteau.py's `alt_sets`: consonant clusters grouped by primary sound, the last sound
 * that is not an approximant or a glottal (/h/ alone groups with the empty cluster).
 */
module ClusterGroups {
  /** Primary sound /m/. */
  const M_GROUP: set<string> := {"m", "mj", "sm", "dm", "hm", "km", "mw", "mr", "ml", "mh", "\U{283}m", "smr", "zm"}

  /** Primary sound /n/. */
  const N_GROUP: set<string> := {"n", "nj", "sn", "dn", "hn", "kn", "mn", "nw", "fn", "\U{283}n", "wn"}

  /** Primary sound /p/ and /b/. */
  const P_GROUP: set<string> := {"p", "b", "pl", "bl", "pr", "br", "pw", "pj", "bj", "sp", "spl", "spr", "spj", "blw", "bw", "brw", "mb", "sb", "zb"}

  /** Primary sound /t/ and /d/. */
  const T_GROUP: set<string> := {"t", "d", "tr", "dr", "tw", "dw", "tj", "dj", "st", "str", "dh", "drw", "gd", "ndj", "nd", "\U{283}t", "stj", "tl", "zdr"}

  /** Primary sound /tʃ/ and /dʒ/. */
  const CH_GROUP: set<string> := {"t\U{283}", "d\U{292}", "t\U{283}j", "t\U{283}l", "t\U{283}r", "t\U{283}w", "d\U{292}j", "d\U{292}f", "d\U{292}w"}

  /** Primary sound /k/ and /g/. */
  const K_GROUP: set<string> := {"k", "g", "kl", "gl", "kr", "gr", "gw", "kw", "kj", "gj", "sk", "skl", "skr", "skw", "skj", "lks"}

  /** Primary sound /f/ and /v/. */
  const F_GROUP: set<string> := {"f", "v", "fl", "fr", "vw", "fj", "vj", "sf", "dv", "fw", "kv", "sv", "\U{283}v", "tv", "vl", "vr", "zv"}

  /** Primary sound /θ/ and /ð/. */
  const TH_GROUP: set<string> := {"\U{3B8}", "\U{F0}", "\U{3B8}r", "\U{3B8}w", "\U{3B8}j", "f\U{3B8}", "\U{F0}j"}

  /** Primary sound /s/ and /z/. */
  const S_GROUP: set<string> := {"s", "z", "sl", "sw", "sj", "zj", "ts", "dz", "fs", "ksj", "sh", "sr", "tsj", "zl", "zw"}

  /** Primary sound /ʃ/ and /ʒ/. */
  const SH_GROUP: set<string> := {"\U{283}", "\U{292}", "\U{283}l", "\U{283}r", "\U{283}w", "\U{283}j", "\U{292}w", "p\U{283}"}

  /** Primary sound /h/ alone, or no consonant. */
  const H_GROUP: set<string> := {"h", ""}

  /** Primary sound /l/. */
  const L_GROUP: set<string> := {"l", "lj", "hl", "lhj", "lw"}

  /** Primary sound /r/. */
  const R_GROUP: set<string> := {"r", "hr", "rw", "rj"}

  /** Primary sound /j/. */
  const J_GROUP: set<string> := {"j", "hj", "jw"}

  /** Primary sound /w/. */
  const W_GROUP: set<string> := {"w", "hw"}

  /** The group at position `i` of `alt_sets`. */
  function GroupAt(i: nat): set<string>
    requires i < 15
  {
    match i
    case 0 => M_GROUP
    case 1 => N_GROUP
    case 2 => P_GROUP
    case 3 => T_GROUP
    case 4 => CH_GROUP
    case 5 => K_GROUP
    case 6 => F_GROUP
    case 7 => TH_GROUP
    case 8 => S_GROUP
    case 9 => SH_GROUP
    case 10 => H_GROUP
    case 11 => L_GROUP
    case 12 => R_GROUP
    case 13 => J_GROUP
    case _ => W_GROUP
  }

  /** `alt_sets`, in the order listed. */
  const ALT_SETS: seq<set<string>> := [
    M_GROUP, N_GROUP, P_GROUP, T_GROUP, CH_GROUP, K_GROUP, F_GROUP, TH_GROUP, S_GROUP, SH_GROUP, H_GROUP, L_GROUP, R_GROUP, J_GROUP, W_GROUP
  ]

  lemma AltSetsAt(i: nat)
    requires i < |ALT_SETS|
    ensures ALT_SETS[i] == GroupAt(i)
  {
  }

  predicate PairwiseDisjoint(sets: seq<set<string>>) {
    forall i, j :: 0 <= i < j < |sets| ==> sets[i] !! sets[j]
  }

  // The verifier compares the literals of two groups at a time.

  lemma ApartMN() ensures M_GROUP !! N_GROUP {}
  lemma ApartMP() ensures M_GROUP !! P_GROUP {}
  lemma ApartMT() ensures M_GROUP !! T_GROUP {}
  lemma ApartMCh() ensures M_GROUP !! CH_GROUP {}
  lemma ApartMK() ensures M_GROUP !! K_GROUP {}
  lemma ApartMF() ensures M_GROUP !! F_GROUP {}
  lemma ApartMTh() ensures M_GROUP !! TH_GROUP {}
  lemma ApartMS() ensures M_GROUP !! S_GROUP {}
  lemma ApartMSh() ensures M_GROUP !! SH_GROUP {}
  lemma ApartMH() ensures M_GROUP !! H_GROUP {}
  lemma ApartML() ensures M_GROUP !! L_GROUP {}
  lemma ApartMR() ensures M_GROUP !! R_GROUP {}
  lemma ApartMJ() ensures M_GROUP !! J_GROUP {}
  lemma ApartMW() ensures M_GROUP !! W_GROUP {}

  lemma ApartNP() ensures N_GROUP !! P_GROUP {}
  lemma ApartNT() ensures N_GROUP !! T_GROUP {}
  lemma ApartNCh() ensures N_GROUP !! CH_GROUP {}
  lemma ApartNK() ensures N_GROUP !! K_GROUP {}
  lemma ApartNF() ensures N_GROUP !! F_GROUP {}
  lemma ApartNTh() ensures N_GROUP !! TH_GROUP {}
  lemma ApartNS() ensures N_GROUP !! S_GROUP {}
  lemma ApartNSh() ensures N_GROUP !! SH_GROUP {}
  lemma ApartNH() ensures N_GROUP !! H_GROUP {}
  lemma ApartNL() ensures N_GROUP !! L_GROUP {}
  lemma ApartNR() ensures N_GROUP !! R_GROUP {}
  lemma ApartNJ() ensures N_GROUP !! J_GROUP {}
  lemma ApartNW() ensures N_GROUP !! W_GROUP {}

  lemma ApartPT() ensures P_GROUP !! T_GROUP {}
  lemma ApartPCh() ensures P_GROUP !! CH_GROUP {}
  lemma ApartPK() ensures P_GROUP !! K_GROUP {}
  lemma ApartPF() ensures P_GROUP !! F_GROUP {}
  lemma ApartPTh() ensures P_GROUP !! TH_GROUP {}
  lemma ApartPS() ensures P_GROUP !! S_GROUP {}
  lemma ApartPSh() ensures P_GROUP !! SH_GROUP {}
  lemma ApartPH() ensures P_GROUP !! H_GROUP {}
  lemma ApartPL() ensures P_GROUP !! L_GROUP {}
  lemma ApartPR() ensures P_GROUP !! R_GROUP {}
  lemma ApartPJ() ensures P_GROUP !! J_GROUP {}
  lemma ApartPW() ensures P_GROUP !! W_GROUP {}

  lemma ApartTCh() ensures T_GROUP !! CH_GROUP {}
  lemma ApartTK() ensures T_GROUP !! K_GROUP {}
  lemma ApartTF() ensures T_GROUP !! F_GROUP {}
  lemma ApartTTh() ensures T_GROUP !! TH_GROUP {}
  lemma ApartTS() ensures T_GROUP !! S_GROUP {}
  lemma ApartTSh() ensures T_GROUP !! SH_GROUP {}
  lemma ApartTH() ensures T_GROUP !! H_GROUP {}
  lemma ApartTL() ensures T_GROUP !! L_GROUP {}
  lemma ApartTR() ensures T_GROUP !! R_GROUP {}
  lemma ApartTJ() ensures T_GROUP !! J_GROUP {}
  lemma ApartTW() ensures T_GROUP !! W_GROUP {}

  lemma ApartChK() ensures CH_GROUP !! K_GROUP {}
  lemma ApartChF() ensures CH_GROUP !! F_GROUP {}
  lemma ApartChTh() ensures CH_GROUP !! TH_GROUP {}
  lemma ApartChS() ensures CH_GROUP !! S_GROUP {}
  lemma ApartChSh() ensures CH_GROUP !! SH_GROUP {}
  lemma ApartChH() ensures CH_GROUP !! H_GROUP {}
  lemma ApartChL() ensures CH_GROUP !! L_GROUP {}
  lemma ApartChR() ensures CH_GROUP !! R_GROUP {}
  lemma ApartChJ() ensures CH_GROUP !! J_GROUP {}
  lemma ApartChW() ensures CH_GROUP !! W_GROUP {}

  lemma ApartKF() ensures K_GROUP !! F_GROUP {}
  lemma ApartKTh() ensures K_GROUP !! TH_GROUP {}
  lemma ApartKS() ensures K_GROUP !! S_GROUP {}
  lemma ApartKSh() ensures K_GROUP !! SH_GROUP {}
  lemma ApartKH() ensures K_GROUP !! H_GROUP {}
  lemma ApartKL() ensures K_GROUP !! L_GROUP {}
  lemma ApartKR() ensures K_GROUP !! R_GROUP {}
  lemma ApartKJ() ensures K_GROUP !! J_GROUP {}
  lemma ApartKW() ensures K_GROUP !! W_GROUP {}

  lemma ApartFTh() ensures F_GROUP !! TH_GROUP {}
  lemma ApartFS() ensures F_GROUP !! S_GROUP {}
  lemma ApartFSh() ensures F_GROUP !! SH_GROUP {}
  lemma ApartFH() ensures F_GROUP !! H_GROUP {}
  lemma ApartFL() ensures F_GROUP !! L_GROUP {}
  lemma ApartFR() ensures F_GROUP !! R_GROUP {}
  lemma ApartFJ() ensures F_GROUP !! J_GROUP {}
  lemma ApartFW() ensures F_GROUP !! W_GROUP {}

  lemma ApartThS() ensures TH_GROUP !! S_GROUP {}
  lemma ApartThSh() ensures TH_GROUP !! SH_GROUP {}
  lemma ApartThH() ensures TH_GROUP !! H_GROUP {}
  lemma ApartThL() ensures TH_GROUP !! L_GROUP {}
  lemma ApartThR() ensures TH_GROUP !! R_GROUP {}
  lemma ApartThJ() ensures TH_GROUP !! J_GROUP {}
  lemma ApartThW() ensures TH_GROUP !! W_GROUP {}

  lemma ApartSSh() ensures S_GROUP !! SH_GROUP {}
  lemma ApartSH() ensures S_GROUP !! H_GROUP {}
  lemma ApartSL() ensures S_GROUP !! L_GROUP {}
  lemma ApartSR() ensures S_GROUP !! R_GROUP {}
  lemma ApartSJ() ensures S_GROUP !! J_GROUP {}
  lemma ApartSW() ensures S_GROUP !! W_GROUP {}

  lemma ApartShH() ensures SH_GROUP !! H_GROUP {}
  lemma ApartShL() ensures SH_GROUP !! L_GROUP {}
  lemma ApartShR() ensures SH_GROUP !! R_GROUP {}
  lemma ApartShJ() ensures SH_GROUP !! J_GROUP {}
  lemma ApartShW() ensures SH_GROUP !! W_GROUP {}

  lemma ApartHL() ensures H_GROUP !! L_GROUP {}
  lemma ApartHR() ensures H_GROUP !! R_GROUP {}
  lemma ApartHJ() ensures H_GROUP !! J_GROUP {}
  lemma ApartHW() ensures H_GROUP !! W_GROUP {}

  lemma ApartLR() ensures L_GROUP !! R_GROUP {}
  lemma ApartLJ() ensures L_GROUP !! J_GROUP {}
  lemma ApartLW() ensures L_GROUP !! W_GROUP {}

  lemma ApartRJ() ensures R_GROUP !! J_GROUP {}
  lemma ApartRW() ensures R_GROUP !! W_GROUP {}

  lemma ApartJW() ensures J_GROUP !! W_GROUP {}


  lemma ApartM(j: nat)
    requires 0 < j < 15
    ensures GroupAt(0) !! GroupAt(j)
  {
    match j
    case 1 => ApartMN();
    case 2 => ApartMP();
    case 3 => ApartMT();
    case 4 => ApartMCh();
    case 5 => ApartMK();
    case 6 => ApartMF();
    case 7 => ApartMTh();
    case 8 => ApartMS();
    case 9 => ApartMSh();
    case 10 => ApartMH();
    case 11 => ApartML();
    case 12 => ApartMR();
    case 13 => ApartMJ();
    case _ => ApartMW();
  }

  lemma ApartN(j: nat)
    requires 1 < j < 15
    ensures GroupAt(1) !! GroupAt(j)
  {
    match j
    case 2 => ApartNP();
    case 3 => ApartNT();
    case 4 => ApartNCh();
    case 5 => ApartNK();
    case 6 => ApartNF();
    case 7 => ApartNTh();
    case 8 => ApartNS();
    case 9 => ApartNSh();
    case 10 => ApartNH();
    case 11 => ApartNL();
    case 12 => ApartNR();
    case 13 => ApartNJ();
    case _ => ApartNW();
  }

  lemma ApartP(j: nat)
    requires 2 < j < 15
    ensures GroupAt(2) !! GroupAt(j)
  {
    match j
    case 3 => ApartPT();
    case 4 => ApartPCh();
    case 5 => ApartPK();
    case 6 => ApartPF();
    case 7 => ApartPTh();
    case 8 => ApartPS();
    case 9 => ApartPSh();
    case 10 => ApartPH();
    case 11 => ApartPL();
    case 12 => ApartPR();
    case 13 => ApartPJ();
    case _ => ApartPW();
  }

  lemma ApartT(j: nat)
    requires 3 < j < 15
    ensures GroupAt(3) !! GroupAt(j)
  {
    match j
    case 4 => ApartTCh();
    case 5 => ApartTK();
    case 6 => ApartTF();
    case 7 => ApartTTh();
    case 8 => ApartTS();
    case 9 => ApartTSh();
    case 10 => ApartTH();
    case 11 => ApartTL();
    case 12 => ApartTR();
    case 13 => ApartTJ();
    case _ => ApartTW();
  }

  lemma ApartCh(j: nat)
    requires 4 < j < 15
    ensures GroupAt(4) !! GroupAt(j)
  {
    match j
    case 5 => ApartChK();
    case 6 => ApartChF();
    case 7 => ApartChTh();
    case 8 => ApartChS();
    case 9 => ApartChSh();
    case 10 => ApartChH();
    case 11 => ApartChL();
    case 12 => ApartChR();
    case 13 => ApartChJ();
    case _ => ApartChW();
  }

  lemma ApartK(j: nat)
    requires 5 < j < 15
    ensures GroupAt(5) !! GroupAt(j)
  {
    match j
    case 6 => ApartKF();
    case 7 => ApartKTh();
    case 8 => ApartKS();
    case 9 => ApartKSh();
    case 10 => ApartKH();
    case 11 => ApartKL();
    case 12 => ApartKR();
    case 13 => ApartKJ();
    case _ => ApartKW();
  }

  lemma ApartF(j: nat)
    requires 6 < j < 15
    ensures GroupAt(6) !! GroupAt(j)
  {
    match j
    case 7 => ApartFTh();
    case 8 => ApartFS();
    case 9 => ApartFSh();
    case 10 => ApartFH();
    case 11 => ApartFL();
    case 12 => ApartFR();
    case 13 => ApartFJ();
    case _ => ApartFW();
  }

  lemma ApartTh(j: nat)
    requires 7 < j < 15
    ensures GroupAt(7) !! GroupAt(j)
  {
    match j
    case 8 => ApartThS();
    case 9 => ApartThSh();
    case 10 => ApartThH();
    case 11 => ApartThL();
    case 12 => ApartThR();
    case 13 => ApartThJ();
    case _ => ApartThW();
  }

  lemma ApartS(j: nat)
    requires 8 < j < 15
    ensures GroupAt(8) !! GroupAt(j)
  {
    match j
    case 9 => ApartSSh();
    case 10 => ApartSH();
    case 11 => ApartSL();
    case 12 => ApartSR();
    case 13 => ApartSJ();
    case _ => ApartSW();
  }

  lemma ApartSh(j: nat)
    requires 9 < j < 15
    ensures GroupAt(9) !! GroupAt(j)
  {
    match j
    case 10 => ApartShH();
    case 11 => ApartShL();
    case 12 => ApartShR();
    case 13 => ApartShJ();
    case _ => ApartShW();
  }

  lemma ApartH(j: nat)
    requires 10 < j < 15
    ensures GroupAt(10) !! GroupAt(j)
  {
    match j
    case 11 => ApartHL();
    case 12 => ApartHR();
    case 13 => ApartHJ();
    case _ => ApartHW();
  }

  lemma ApartL(j: nat)
    requires 11 < j < 15
    ensures GroupAt(11) !! GroupAt(j)
  {
    match j
    case 12 => ApartLR();
    case 13 => ApartLJ();
    case _ => ApartLW();
  }

  lemma ApartR(j: nat)
    requires 12 < j < 15
    ensures GroupAt(12) !! GroupAt(j)
  {
    match j
    case 13 => ApartRJ();
    case _ => ApartRW();
  }

  lemma ApartJ(j: nat)
    requires 13 < j < 15
    ensures GroupAt(13) !! GroupAt(j)
  {
    match j
    case _ => ApartJW();
  }

  lemma ApartGroups(i: nat, j: nat)
    requires i < j < 15
    ensures GroupAt(i) !! GroupAt(j)
  {
    match i
    case 0 => ApartM(j);
    case 1 => ApartN(j);
    case 2 => ApartP(j);
    case 3 => ApartT(j);
    case 4 => ApartCh(j);
    case 5 => ApartK(j);
    case 6 => ApartF(j);
    case 7 => ApartTh(j);
    case 8 => ApartS(j);
    case 9 => ApartSh(j);
    case 10 => ApartH(j);
    case 11 => ApartL(j);
    case 12 => ApartR(j);
    case _ => ApartJ(j);
  }

  /** The listed groups share no cluster. */
  lemma AltSetsDisjoint()
    ensures PairwiseDisjoint(ALT_SETS)
  {
    forall i, j | 0 <= i < j < |ALT_SETS|
      ensures ALT_SETS[i] !! ALT_SETS[j]
    {
      AltSetsAt(i);
      AltSetsAt(j);
      ApartGroups(i, j);
    }
  }
}
