/** The table of starting values for the reciprocal, a row for every sixteen entries. */
module ReciprocalTable {

  const ROW_0: seq<int> := [2045, 2037, 2029, 2021, 2013, 2005, 1998, 1990, 1983, 1975, 1968, 1960, 1953, 1946, 1938, 1931]
  const ROW_1: seq<int> := [1924, 1917, 1910, 1903, 1896, 1889, 1883, 1876, 1869, 1863, 1856, 1849, 1843, 1836, 1830, 1824]
  const ROW_2: seq<int> := [1817, 1811, 1805, 1799, 1792, 1786, 1780, 1774, 1768, 1762, 1756, 1750, 1745, 1739, 1733, 1727]
  const ROW_3: seq<int> := [1722, 1716, 1710, 1705, 1699, 1694, 1688, 1683, 1677, 1672, 1667, 1661, 1656, 1651, 1646, 1641]
  const ROW_4: seq<int> := [1636, 1630, 1625, 1620, 1615, 1610, 1605, 1600, 1596, 1591, 1586, 1581, 1576, 1572, 1567, 1562]
  const ROW_5: seq<int> := [1558, 1553, 1548, 1544, 1539, 1535, 1530, 1526, 1521, 1517, 1513, 1508, 1504, 1500, 1495, 1491]
  const ROW_6: seq<int> := [1487, 1483, 1478, 1474, 1470, 1466, 1462, 1458, 1454, 1450, 1446, 1442, 1438, 1434, 1430, 1426]
  const ROW_7: seq<int> := [1422, 1418, 1414, 1411, 1407, 1403, 1399, 1396, 1392, 1388, 1384, 1381, 1377, 1374, 1370, 1366]
  const ROW_8: seq<int> := [1363, 1359, 1356, 1352, 1349, 1345, 1342, 1338, 1335, 1332, 1328, 1325, 1322, 1318, 1315, 1312]
  const ROW_9: seq<int> := [1308, 1305, 1302, 1299, 1295, 1292, 1289, 1286, 1283, 1280, 1276, 1273, 1270, 1267, 1264, 1261]
  const ROW_10: seq<int> := [1258, 1255, 1252, 1249, 1246, 1243, 1240, 1237, 1234, 1231, 1228, 1226, 1223, 1220, 1217, 1214]
  const ROW_11: seq<int> := [1211, 1209, 1206, 1203, 1200, 1197, 1195, 1192, 1189, 1187, 1184, 1181, 1179, 1176, 1173, 1171]
  const ROW_12: seq<int> := [1168, 1165, 1163, 1160, 1158, 1155, 1153, 1150, 1148, 1145, 1143, 1140, 1138, 1135, 1133, 1130]
  const ROW_13: seq<int> := [1128, 1125, 1123, 1121, 1118, 1116, 1113, 1111, 1109, 1106, 1104, 1102, 1099, 1097, 1095, 1092]
  const ROW_14: seq<int> := [1090, 1088, 1086, 1083, 1081, 1079, 1077, 1074, 1072, 1070, 1068, 1066, 1064, 1061, 1059, 1057]
  const ROW_15: seq<int> := [1055, 1053, 1051, 1049, 1047, 1044, 1042, 1040, 1038, 1036, 1034, 1032, 1030, 1028, 1026, 1024]

  function Row(r: nat): (row: seq<int>)
    requires r < 16
    ensures |row| == 16
  {
    match r
    case 0 => ROW_0
    case 1 => ROW_1
    case 2 => ROW_2
    case 3 => ROW_3
    case 4 => ROW_4
    case 5 => ROW_5
    case 6 => ROW_6
    case 7 => ROW_7
    case 8 => ROW_8
    case 9 => ROW_9
    case 10 => ROW_10
    case 11 => ROW_11
    case 12 => ROW_12
    case 13 => ROW_13
    case 14 => ROW_14
    case _ => ROW_15
  }

  function Entry(i: nat): int
    requires i < 256
  {
    Row(i / 16)[i % 16]
  }

  /** `v0` is the floor of `(2^19 - 3 * 2^8) / d9`. */
  predicate Fits(v0: int, d9: int) {
    v0 * d9 <= 523520 < (v0 + 1) * d9
  }

  lemma Row0(i: nat)
    requires i < 16
    ensures Fits(ROW_0[i], 256 + i)
  {}

  lemma Row1(i: nat)
    requires i < 16
    ensures Fits(ROW_1[i], 272 + i)
  {}

  lemma Row2(i: nat)
    requires i < 16
    ensures Fits(ROW_2[i], 288 + i)
  {}

  lemma Row3(i: nat)
    requires i < 16
    ensures Fits(ROW_3[i], 304 + i)
  {}

  lemma Row4(i: nat)
    requires i < 16
    ensures Fits(ROW_4[i], 320 + i)
  {}

  lemma Row5(i: nat)
    requires i < 16
    ensures Fits(ROW_5[i], 336 + i)
  {}

  lemma Row6(i: nat)
    requires i < 16
    ensures Fits(ROW_6[i], 352 + i)
  {}

  lemma Row7(i: nat)
    requires i < 16
    ensures Fits(ROW_7[i], 368 + i)
  {}

  lemma Row8(i: nat)
    requires i < 16
    ensures Fits(ROW_8[i], 384 + i)
  {}

  lemma Row9(i: nat)
    requires i < 16
    ensures Fits(ROW_9[i], 400 + i)
  {}

  lemma Row10(i: nat)
    requires i < 16
    ensures Fits(ROW_10[i], 416 + i)
  {}

  lemma Row11(i: nat)
    requires i < 16
    ensures Fits(ROW_11[i], 432 + i)
  {}

  lemma Row12(i: nat)
    requires i < 16
    ensures Fits(ROW_12[i], 448 + i)
  {}

  lemma Row13(i: nat)
    requires i < 16
    ensures Fits(ROW_13[i], 464 + i)
  {}

  lemma Row14(i: nat)
    requires i < 16
    ensures Fits(ROW_14[i], 480 + i)
  {}

  lemma Row15(i: nat)
    requires i < 16
    ensures Fits(ROW_15[i], 496 + i)
  {}

  lemma RowsFrom0(r: nat, k: nat)
    requires 0 <= r < 4 && k < 16
    ensures Fits(Row(r)[k], 256 + 16 * r + k)
  {
    match r
    case 0 => Row0(k);
    case 1 => Row1(k);
    case 2 => Row2(k);
    case _ => Row3(k);
  }

  lemma RowsFrom4(r: nat, k: nat)
    requires 4 <= r < 8 && k < 16
    ensures Fits(Row(r)[k], 256 + 16 * r + k)
  {
    match r
    case 4 => Row4(k);
    case 5 => Row5(k);
    case 6 => Row6(k);
    case _ => Row7(k);
  }

  lemma RowsFrom8(r: nat, k: nat)
    requires 8 <= r < 12 && k < 16
    ensures Fits(Row(r)[k], 256 + 16 * r + k)
  {
    match r
    case 8 => Row8(k);
    case 9 => Row9(k);
    case 10 => Row10(k);
    case _ => Row11(k);
  }

  lemma RowsFrom12(r: nat, k: nat)
    requires 12 <= r < 16 && k < 16
    ensures Fits(Row(r)[k], 256 + 16 * r + k)
  {
    match r
    case 12 => Row12(k);
    case 13 => Row13(k);
    case 14 => Row14(k);
    case _ => Row15(k);
  }

  lemma RowFits(r: nat, k: nat)
    requires r < 16 && k < 16
    ensures Fits(Row(r)[k], 256 + 16 * r + k)
  {
    if r < 4 { RowsFrom0(r, k); }
    else if r < 8 { RowsFrom4(r, k); }
    else if r < 12 { RowsFrom8(r, k); }
    else { RowsFrom12(r, k); }
  }

  /** Every entry is the floor of `(2^19 - 3 * 2^8)` over the nine-bit divisor it stands for. */
  lemma EntryFits(i: nat)
    requires i < 256
    ensures Fits(Entry(i), 256 + i)
  {
    RowFits(i / 16, i % 16);
  }
}
