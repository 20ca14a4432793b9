/**
 * The source's `bttv_emotes` table (chat_downloader.py), in its order (the
 * order decides ties), as code points; each entry's name is in the comment.
 */
module BttvTable {
  import opened Text
  import Bttv

  // The table is written in chunks so that the verifier can check each
  // chunk's entries one by one.
  const Table0: seq<seq<CodePoint>> := [
    [0x4F, 0x68, 0x4D, 0x79, 0x47, 0x6F, 0x6F, 0x64, 0x6E, 0x65, 0x73, 0x73],  // OhMyGoodness
    [0x50, 0x61, 0x6E, 0x63, 0x61, 0x6B, 0x65, 0x4D, 0x69, 0x78],  // PancakeMix
    [0x50, 0x65, 0x64, 0x6F, 0x42, 0x65, 0x61, 0x72],  // PedoBear
    [0x50, 0x6F, 0x6B, 0x65, 0x72, 0x46, 0x61, 0x63, 0x65],  // PokerFace
    [0x52, 0x61, 0x67, 0x65, 0x46, 0x61, 0x63, 0x65],  // RageFace
    [0x52, 0x65, 0x62, 0x65, 0x63, 0x63, 0x61, 0x42, 0x6C, 0x61, 0x63, 0x6B],  // RebeccaBlack
    [0x3A, 0x74, 0x66, 0x3A],  // :tf:
    [0x61, 0x50, 0x6C, 0x69, 0x53],  // aPliS
    [0x43, 0x69, 0x47, 0x72, 0x69, 0x70],  // CiGrip
    [0x43, 0x48, 0x41, 0x63, 0x63, 0x65, 0x70, 0x74, 0x65, 0x64],  // CHAccepted
    [0x46, 0x75, 0x63, 0x6B, 0x59, 0x65, 0x61],  // FuckYea
    [0x44, 0x61, 0x74, 0x53, 0x61, 0x75, 0x63, 0x65],  // DatSauce
    [0x46, 0x6F, 0x72, 0x65, 0x76, 0x65, 0x72, 0x41, 0x6C, 0x6F, 0x6E, 0x65],  // ForeverAlone
    [0x47, 0x61, 0x62, 0x65, 0x4E],  // GabeN
    [0x48, 0x61, 0x69, 0x6C, 0x48, 0x65, 0x6C, 0x69, 0x78],  // HailHelix
    [0x48, 0x65, 0x72, 0x62, 0x50, 0x65, 0x72, 0x76, 0x65],  // HerbPerve
    [0x69, 0x44, 0x6F, 0x67]  // iDog
  ]

  const Table1: seq<seq<CodePoint>> := [
    [0x72, 0x53, 0x74, 0x72, 0x69, 0x6B, 0x65],  // rStrike
    [0x53, 0x68, 0x6F, 0x6F, 0x70, 0x44, 0x61, 0x57, 0x68, 0x6F, 0x6F, 0x70],  // ShoopDaWhoop
    [0x53, 0x77, 0x65, 0x64, 0x53, 0x77, 0x61, 0x67],  // SwedSwag
    [0x4D, 0x26, 0x4D, 0x6A, 0x63],  // M&Mjc
    [0x62, 0x74, 0x74, 0x76, 0x4E, 0x69, 0x63, 0x65],  // bttvNice
    [0x54, 0x6F, 0x70, 0x48, 0x61, 0x6D],  // TopHam
    [0x54, 0x77, 0x61, 0x54],  // TwaT
    [0x57, 0x68, 0x61, 0x74, 0x41, 0x59, 0x6F, 0x6C, 0x6B],  // WhatAYolk
    [0x57, 0x61, 0x74, 0x43, 0x68, 0x75, 0x53, 0x61, 0x79],  // WatChuSay
    [0x42, 0x6C, 0x61, 0x63, 0x6B, 0x61, 0x70, 0x70, 0x61],  // Blackappa
    [0x44, 0x6F, 0x67, 0x65, 0x57, 0x69, 0x74, 0x49, 0x74],  // DogeWitIt
    [0x42, 0x61, 0x64, 0x41, 0x73, 0x73],  // BadAss
    [0x53, 0x61, 0x76, 0x61, 0x67, 0x65, 0x4A, 0x65, 0x72, 0x6B, 0x79],  // SavageJerky
    [0x4B, 0x61, 0x67, 0x65, 0x64],  // Kaged
    [0x48, 0x48, 0x79, 0x64, 0x72, 0x6F],  // HHydro
    [0x54, 0x61, 0x78, 0x69, 0x42, 0x72, 0x6F],  // TaxiBro
    [0x42, 0x72, 0x6F, 0x42, 0x61, 0x6C, 0x74]  // BroBalt
  ]

  const Table2: seq<seq<CodePoint>> := [
    [0x42, 0x75, 0x74, 0x74, 0x65, 0x72, 0x53, 0x61, 0x75, 0x63, 0x65],  // ButterSauce
    [0x42, 0x61, 0x63, 0x6F, 0x6E, 0x45, 0x66, 0x66, 0x65, 0x63, 0x74],  // BaconEffect
    [0x53, 0x75, 0x63, 0x68, 0x46, 0x72, 0x61, 0x75, 0x64],  // SuchFraud
    [0x43, 0x61, 0x6E, 0x64, 0x69, 0x61, 0x6E, 0x52, 0x61, 0x67, 0x65],  // CandianRage
    [0x53, 0x68, 0x65, 0x27, 0x6C, 0x6C, 0x42, 0x65, 0x52, 0x69, 0x67, 0x68, 0x74],  // She'llBeRight
    [0x4F, 0x68, 0x68, 0x68, 0x4B, 0x65, 0x65],  // OhhhKee
    [0x44, 0x3A],  // D:
    [0x53, 0x65, 0x78, 0x50, 0x61, 0x6E, 0x64, 0x61],  // SexPanda
    [0x28, 0x70, 0x6F, 0x6F, 0x6C, 0x70, 0x61, 0x72, 0x74, 0x79, 0x29],  // (poolparty)
    [0x3A, 0x27, 0x28],  // :'(
    [0x28, 0x70, 0x75, 0x6B, 0x65, 0x29],  // (puke)
    [0x62, 0x74, 0x74, 0x76, 0x57, 0x69, 0x6E, 0x6B],  // bttvWink
    [0x62, 0x74, 0x74, 0x76, 0x41, 0x6E, 0x67, 0x72, 0x79],  // bttvAngry
    [0x62, 0x74, 0x74, 0x76, 0x43, 0x6F, 0x6E, 0x66, 0x75, 0x73, 0x65, 0x64],  // bttvConfused
    [0x62, 0x74, 0x74, 0x76, 0x43, 0x6F, 0x6F, 0x6C],  // bttvCool
    [0x62, 0x74, 0x74, 0x76, 0x48, 0x61, 0x70, 0x70, 0x79],  // bttvHappy
    [0x62, 0x74, 0x74, 0x76, 0x53, 0x61, 0x64]  // bttvSad
  ]

  const Table3: seq<seq<CodePoint>> := [
    [0x62, 0x74, 0x74, 0x76, 0x53, 0x6C, 0x65, 0x65, 0x70],  // bttvSleep
    [0x62, 0x74, 0x74, 0x76, 0x53, 0x75, 0x72, 0x70, 0x72, 0x69, 0x73, 0x65, 0x64],  // bttvSurprised
    [0x62, 0x74, 0x74, 0x76, 0x54, 0x6F, 0x6E, 0x67, 0x75, 0x65],  // bttvTongue
    [0x62, 0x74, 0x74, 0x76, 0x55, 0x6E, 0x73, 0x75, 0x72, 0x65],  // bttvUnsure
    [0x62, 0x74, 0x74, 0x76, 0x47, 0x72, 0x69, 0x6E],  // bttvGrin
    [0x62, 0x74, 0x74, 0x76, 0x48, 0x65, 0x61, 0x72, 0x74],  // bttvHeart
    [0x62, 0x74, 0x74, 0x76, 0x54, 0x77, 0x69, 0x6E, 0x6B],  // bttvTwink
    [0x56, 0x69, 0x73, 0x4C, 0x61, 0x75, 0x64],  // VisLaud
    [0x28, 0x63, 0x68, 0x6F, 0x6D, 0x70, 0x79, 0x29],  // (chompy)
    [0x53, 0x6F, 0x53, 0x65, 0x72, 0x69, 0x6F, 0x75, 0x73],  // SoSerious
    [0x42, 0x61, 0x74, 0x4B, 0x61, 0x70, 0x70, 0x61],  // BatKappa
    [0x4B, 0x61, 0x52, 0x61, 0x70, 0x70, 0x61],  // KaRappa
    [0x59, 0x65, 0x74, 0x69, 0x5A],  // YetiZ
    [0x6D, 0x69, 0x6E, 0x69, 0x4A, 0x75, 0x6C, 0x69, 0x61],  // miniJulia
    [0x6D, 0x6F, 0x74, 0x6E, 0x61, 0x68, 0x50],  // motnahP
    [0x73, 0x6F, 0x73, 0x47, 0x61, 0x6D, 0x65],  // sosGame
    [0x43, 0x72, 0x75, 0x57]  // CruW
  ]

  const Table4: seq<seq<CodePoint>> := [
    [0x52, 0x61, 0x72, 0x65, 0x50, 0x65, 0x70, 0x65],  // RarePepe
    [0x69, 0x61, 0x6D, 0x73, 0x6F, 0x63, 0x61, 0x6C],  // iamsocal
    [0x68, 0x61, 0x48, 0x41, 0x41],  // haHAA
    [0x46, 0x65, 0x65, 0x6C, 0x73, 0x42, 0x69, 0x72, 0x74, 0x68, 0x64, 0x61, 0x79, 0x4D, 0x61, 0x6E],  // FeelsBirthdayMan
    [0x52, 0x6F, 0x6E, 0x53, 0x6D, 0x75, 0x67],  // RonSmug
    [0x4B, 0x61, 0x70, 0x70, 0x61, 0x43, 0x6F, 0x6F, 0x6C],  // KappaCool
    [0x5A, 0x61, 0x70, 0x70, 0x61],  // Zappa
    [0x42, 0x61, 0x73, 0x65, 0x64, 0x47, 0x6F, 0x64],  // BasedGod
    [0x62, 0x55, 0x72, 0x73, 0x65, 0x6C, 0x66],  // bUrself
    [0x43, 0x6F, 0x6E, 0x63, 0x65, 0x72, 0x6E, 0x44, 0x6F, 0x67, 0x65],  // ConcernDoge
    [0x46, 0x61, 0x70, 0x46, 0x61, 0x70, 0x46, 0x61, 0x70],  // FapFapFap
    [0x46, 0x65, 0x65, 0x6C, 0x73, 0x42, 0x61, 0x64, 0x4D, 0x61, 0x6E],  // FeelsBadMan
    [0x46, 0x65, 0x65, 0x6C, 0x73, 0x47, 0x6F, 0x6F, 0x64, 0x4D, 0x61, 0x6E],  // FeelsGoodMan
    [0x46, 0x69, 0x72, 0x65, 0x53, 0x70, 0x65, 0x65, 0x64],  // FireSpeed
    [0x46, 0x69, 0x73, 0x68, 0x4D, 0x6F, 0x6C, 0x65, 0x79],  // FishMoley
    [0x48, 0x68, 0x68, 0x65, 0x68, 0x65, 0x68, 0x65],  // Hhhehehe
    [0x4B, 0x4B, 0x6F, 0x6E, 0x61]  // KKona
  ]

  const Table5: seq<seq<CodePoint>> := [
    [0x4E, 0x61, 0x4D],  // NaM
    [0x4F, 0x68, 0x47, 0x6F, 0x64],  // OhGod
    [0x50, 0x6F, 0x6C, 0x65, 0x44, 0x6F, 0x67, 0x65],  // PoleDoge
    [0x74, 0x65, 0x68, 0x50, 0x6F, 0x6C, 0x65, 0x43, 0x61, 0x74],  // tehPoleCat
    [0x41, 0x6E, 0x67, 0x65, 0x6C, 0x54, 0x68, 0x75, 0x6D, 0x70],  // AngelThump
    [0x53, 0x6F, 0x75, 0x72, 0x50, 0x6C, 0x73],  // SourPls
    [0x4C, 0x75, 0x4C],  // LuL
    [0x53, 0x61, 0x6C, 0x74, 0x79, 0x43, 0x6F, 0x72, 0x6E],  // SaltyCorn
    [0x46, 0x43, 0x72, 0x65, 0x65, 0x70],  // FCreep
    [0x56, 0x61, 0x70, 0x65, 0x4E, 0x61, 0x74, 0x69, 0x6F, 0x6E],  // VapeNation
    [0x61, 0x72, 0x69, 0x57],  // ariW
    [0x6E, 0x6F, 0x74, 0x73, 0x71, 0x75, 0x69, 0x73, 0x68, 0x59],  // notsquishY
    [0x46, 0x65, 0x65, 0x6C, 0x73, 0x41, 0x6D, 0x61, 0x7A, 0x69, 0x6E, 0x67, 0x4D, 0x61, 0x6E],  // FeelsAmazingMan
    [0x44, 0x75, 0x63, 0x6B, 0x65, 0x72, 0x5A],  // DuckerZ
    [0x53, 0x71, 0x53, 0x68, 0x79],  // SqShy
    [0x57, 0x6F, 0x77, 0x65, 0x65]  // Wowee
  ]

  /** `bttv_emotes` */
  const BttvEmotes: seq<seq<CodePoint>> := Table0 + Table1 + Table2 + Table3 + Table4 + Table5

  /** No entry of the table is empty, so the scan of `process_bttv_emotes` terminates. */
  lemma BttvEmotesValid()
    ensures Bttv.ValidTable(BttvEmotes)
  {
    assert Bttv.ValidTable(Table0);
    assert Bttv.ValidTable(Table1);
    assert Bttv.ValidTable(Table2);
    assert Bttv.ValidTable(Table3);
    assert Bttv.ValidTable(Table4);
    assert Bttv.ValidTable(Table5);
    ValidAppend(Table0, Table1);
    ValidAppend(Table0 + Table1, Table2);
    ValidAppend(Table0 + Table1 + Table2, Table3);
    ValidAppend(Table0 + Table1 + Table2 + Table3, Table4);
    ValidAppend(Table0 + Table1 + Table2 + Table3 + Table4, Table5);
  }

  lemma ValidAppend(a: seq<seq<CodePoint>>, b: seq<seq<CodePoint>>)
    requires Bttv.ValidTable(a) && Bttv.ValidTable(b)
    ensures Bttv.ValidTable(a + b)
  {
    forall k | 0 <= k < |a + b|
      ensures |(a + b)[k]| > 0
    {
      if k >= |a| {
        assert (a + b)[k] == b[k - |a|];
      }
    }
  }
}
