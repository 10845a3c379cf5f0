/** Which kind of value a Bitrek parameter has. */
module ParamTypes {

  function StringIds(): seq<int> {
    [252, 253, 261, 262, 263, 264, 265, 266, 267, 268, 269, 245, 242, 1242, 243, 1243, 244, 1244, 910, 20, 188]
  }

  function ShortIds(): seq<int> {
    [246, 189, 903, 1903, 11, 1011, 12, 1012, 13, 1013, 197, 198, 199, 208, 206, 201, 270, 1270, 232]
    + [1232, 284, 1284, 285, 1285, 905, 1905, 906, 1906, 345, 355, 365, 375, 545, 555, 475, 485, 515, 305, 315]
    + [425, 415, 495, 805, 585, 595, 405, 635, 645, 655, 665, 675, 695, 705, 535, 855, 865, 875, 885, 395]
    + [755, 765, 775, 785, 795, 625, 3805, 3835, 3625, 3635, 3645, 3655, 3665, 3675, 3685, 3695, 3705, 326, 327]
    + [328, 329, 330, 331, 332, 333, 334, 342, 343, 352, 353, 362, 363, 372, 373, 542, 543, 552, 553, 562, 563]
    + [572, 573, 472, 473, 482, 483, 512, 513, 302, 303, 312, 313, 422, 423, 412, 413, 492, 493, 452, 453]
    + [442, 443, 502, 503, 712, 713, 462, 463, 582, 583, 592, 593, 402, 403, 602, 603, 612, 613, 632, 633]
    + [642, 643, 652, 653, 662, 663, 672, 673, 682, 683, 692, 693, 702, 703, 522, 523, 532, 533, 852, 853]
    + [862, 863, 872, 873, 882, 883, 892, 893, 392, 393, 182, 183, 192, 193, 832, 833, 842, 843, 752, 753]
    + [762, 763, 772, 773, 782, 783, 792, 793, 622, 623, 907, 816, 817, 3622, 3623, 3632, 3633, 3642, 3643]
    + [3652, 3653, 3662, 3663, 3672, 3673, 3682, 3683, 3692, 3693, 3702, 4007, 4008, 4019, 4020, 5045, 3703]
    + [565, 575, 959, 980, 475, 485, 305, 315, 895, 845]
  }

  function LongIds(): seq<int> {
    [3326, 3327, 3328, 3329, 3330, 3331, 3332, 3333, 3334, 3825, 950, 951, 952, 953, 954, 445, 505, 715, 465]
    + [185, 195, 685, 835, 325, 3815, 5005]
  }

  /** The access point, login, password and address tables. */
  predicate InStringTable(id: int) {
    60 <= id <= 99 || 100 <= id <= 139 || 100 <= id <= 179 || 20 <= id <= 59
  }

  /** 1: one byte, 2: a short, 3: a string, 4: a long. The first table that lists the id decides. */
  function TypeForParam(id: int): (t: int)
    ensures 1 <= t <= 4
    ensures t == 3 <==> InStringTable(id) || id in StringIds()
    ensures t == 2 <==> t != 3 && id in ShortIds()
    ensures t == 4 <==> t != 3 && t != 2 && id in LongIds()
    ensures 20 <= id <= 179 ==> t == 3
  {
    if InStringTable(id) || id in StringIds() then 3
    else if id in ShortIds() then 2
    else if id in LongIds() then 4
    else 1
  }

  method Listed(table: seq<int>, id: int) returns (found: bool)
    ensures found <==> id in table
  {
    var i := 0;
    while i < |table|
      invariant i <= |table| && id !in table[..i]
    {
      if table[i] == id {
        return true;
      }
      i := i + 1;
    }
    return false;
  }

  method GetTypeForParam(id: int) returns (t: int)
    ensures t == TypeForParam(id)
  {
    hide StringIds, ShortIds, LongIds;
    if InStringTable(id) {
      return 3;
    }
    var found := Listed(StringIds(), id);
    if found {
      return 3;
    }
    found := Listed(ShortIds(), id);
    if found {
      return 2;
    }
    found := Listed(LongIds(), id);
    if found {
      return 4;
    }
    return 1;
  }
}
