// internal/ata/attr.go: the table of attribute names.
module AttrTable {
  import opened GoInt

  datatype Restriction = Any | HddOnly | SsdOnly

  datatype AttrDef = AttrDef(name: string, restriction: Restriction)

  function DefaultDef(id: uint8): Option<AttrDef> {
    match id
    case 1 => Some(AttrDef("Raw_Read_Error_Rate", Any))
    case 2 => Some(AttrDef("Throughput_Performance", Any))
    case 3 => Some(AttrDef("Spin_Up_Time", Any))
    case 4 => Some(AttrDef("Start_Stop_Count", Any))
    case 5 => Some(AttrDef("Reallocated_Sector_Ct", Any))
    case 6 => Some(AttrDef("Read_Channel_Margin", HddOnly))
    case 7 => Some(AttrDef("Seek_Error_Rate", HddOnly))
    case 8 => Some(AttrDef("Seek_Time_Performance", HddOnly))
    case 9 => Some(AttrDef("Power_On_Hours", Any))
    case 10 => Some(AttrDef("Spin_Retry_Count", HddOnly))
    case 11 => Some(AttrDef("Calibration_Retry_Count", HddOnly))
    case 12 => Some(AttrDef("Power_Cycle_Count", Any))
    case 13 => Some(AttrDef("Read_Soft_Error_Rate", Any))
    case 22 => Some(AttrDef("Helium_Level", HddOnly))
    case 23 => Some(AttrDef("Helium_Condition_Lower", HddOnly))
    case 24 => Some(AttrDef("Helium_Condition_Upper", HddOnly))
    case 175 => Some(AttrDef("Program_Fail_Count_Chip", SsdOnly))
    case 176 => Some(AttrDef("Erase_Fail_Count_Chip", SsdOnly))
    case 177 => Some(AttrDef("Wear_Leveling_Count", SsdOnly))
    case 178 => Some(AttrDef("Used_Rsvd_Blk_Cnt_Chip", SsdOnly))
    case 179 => Some(AttrDef("Used_Rsvd_Blk_Cnt_Tot", SsdOnly))
    case 180 => Some(AttrDef("Unused_Rsvd_Blk_Cnt_Tot", SsdOnly))
    case 181 => Some(AttrDef("Program_Fail_Cnt_Total", Any))
    case 182 => Some(AttrDef("Erase_Fail_Count_Total", SsdOnly))
    case 183 => Some(AttrDef("Runtime_Bad_Block", Any))
    case 184 => Some(AttrDef("End-to-End_Error", Any))
    case 187 => Some(AttrDef("Reported_Uncorrect", Any))
    case 188 => Some(AttrDef("Command_Timeout", Any))
    case 189 => Some(AttrDef("High_Fly_Writes", HddOnly))
    case 190 => Some(AttrDef("Airflow_Temperature_Cel", Any))
    case 191 => Some(AttrDef("G-Sense_Error_Rate", HddOnly))
    case 192 => Some(AttrDef("Power-Off_Retract_Count", Any))
    case 193 => Some(AttrDef("Load_Cycle_Count", HddOnly))
    case 194 => Some(AttrDef("Temperature_Celsius", Any))
    case 195 => Some(AttrDef("Hardware_ECC_Recovered", Any))
    case 196 => Some(AttrDef("Reallocated_Event_Count", Any))
    case 197 => Some(AttrDef("Current_Pending_Sector", Any))
    case 198 => Some(AttrDef("Offline_Uncorrectable", Any))
    case 199 => Some(AttrDef("UDMA_CRC_Error_Count", Any))
    case 200 => Some(AttrDef("Multi_Zone_Error_Rate", HddOnly))
    case 201 => Some(AttrDef("Soft_Read_Error_Rate", HddOnly))
    case 202 => Some(AttrDef("Data_Address_Mark_Errs", HddOnly))
    case 203 => Some(AttrDef("Run_Out_Cancel", Any))
    case 204 => Some(AttrDef("Soft_ECC_Correction", Any))
    case 205 => Some(AttrDef("Thermal_Asperity_Rate", Any))
    case 206 => Some(AttrDef("Flying_Height", HddOnly))
    case 207 => Some(AttrDef("Spin_High_Current", HddOnly))
    case 208 => Some(AttrDef("Spin_Buzz", HddOnly))
    case 209 => Some(AttrDef("Offline_Seek_Performnce", HddOnly))
    case 220 => Some(AttrDef("Disk_Shift", HddOnly))
    case 221 => Some(AttrDef("G-Sense_Error_Rate", HddOnly))
    case 222 => Some(AttrDef("Loaded_Hours", HddOnly))
    case 223 => Some(AttrDef("Load_Retry_Count", HddOnly))
    case 224 => Some(AttrDef("Load_Friction", HddOnly))
    case 225 => Some(AttrDef("Load_Cycle_Count", HddOnly))
    case 226 => Some(AttrDef("Load-in_Time", HddOnly))
    case 227 => Some(AttrDef("Torq-amp_Count", HddOnly))
    case 228 => Some(AttrDef("Power-off_Retract_Count", Any))
    case 230 => Some(AttrDef("Head_Amplitude", HddOnly))
    case 231 => Some(AttrDef("Temperature_Celsius", HddOnly))
    case 232 => Some(AttrDef("Available_Reservd_Space", Any))
    case 233 => Some(AttrDef("Media_Wearout_Indicator", SsdOnly))
    case 240 => Some(AttrDef("Head_Flying_Hours", HddOnly))
    case 241 => Some(AttrDef("Total_LBAs_Written", Any))
    case 242 => Some(AttrDef("Total_LBAs_Read", Any))
    case 250 => Some(AttrDef("Read_Error_Retry_Rate", Any))
    case 254 => Some(AttrDef("Free_Fall_Sensor", HddOnly))
    case _ => None
  }

  // rpm > 1 means HDD, rpm == 1 means SSD, anything else unknown.
  function AttrName(id: uint8, rpm: int): string {
    match DefaultDef(id)
    case None => "Unknown_Attribute"
    case Some(def) =>
      if def.restriction.HddOnly? && rpm == 1 then "Unknown_SSD_Attribute"
      else if def.restriction.SsdOnly? && rpm > 1 then "Unknown_HDD_Attribute"
      else def.name
  }

  // --- which identifiers share a name ---

  const UNKNOWN := 0
  const UNKNOWN_SSD := 256
  const UNKNOWN_HDD := 257

  // Three pairs of identifiers have the same entry in the name column.
  function Canonical(id: uint8): nat {
    if id == 221 then 191 else if id == 225 then 193 else if id == 231 then 194 else id
  }

  // The identifiers with equal names, as numbers: decided without comparing any text.
  function NameClass(id: uint8, rpm: int): nat {
    match DefaultDef(id)
    case None => UNKNOWN
    case Some(def) =>
      if def.restriction.HddOnly? && rpm == 1 then UNKNOWN_SSD
      else if def.restriction.SsdOnly? && rpm > 1 then UNKNOWN_HDD
      else Canonical(id)
  }

  // Reads the class back from a name: its length and one or two letters identify it.
  ghost function ClassOf(name: string): nat {
    match |name|
    case 9 => 208
    case 10 => 220
    case 12 =>
      if name[4] == 'u' then 22
      else if name[4] == '-' then 226
      else if name[4] == 'e' then 222
      else 3
    case 13 =>
      if name[0] == 'F' then 206
      else 224
    case 14 =>
      if name[0] == 'H' then 230
      else if name[0] == 'P' then 9
      else if name[0] == 'R' then 203
      else 227
    case 15 =>
      if name[0] == 'C' then 188
      else if name[0] == 'H' then 189
      else if name[0] == 'S' then 7
      else 242
    case 16 =>
      if name[0] == 'E' && name[5] == 'o' then 184
      else if name[0] == 'F' && name[5] == 'F' then 254
      else if name[0] == 'L' && name[5] == 'C' then 193
      else if name[0] == 'L' && name[5] == 'R' then 223
      else if name[0] == 'S' && name[5] == 'R' then 10
      else 4
    case 17 =>
      if name[0] == 'H' then 240
      else if name[0] == 'P' then 12
      else if name[0] == 'R' then 183
      else if name[0] == 'S' then 207
      else UNKNOWN
    case 18 =>
      if name[0] == 'G' then 191
      else if name[0] == 'R' then 187
      else 241
    case 19 =>
      if name[3] == '_' then 1
      else if name[3] == 'd' then 6
      else if name[3] == 't' then 204
      else if name[3] == 'p' then 194
      else 177
    case 20 =>
      if name[0] == 'R' then 13
      else if name[0] == 'S' then 201
      else 199
    case 21 =>
      if name[8] == 'i' then 176
      else if name[8] == 'n' then 200
      else if name[8] == 'U' then 198
      else if name[8] == 'o' then 250
      else if name[8] == 't' then 5
      else if name[8] == 'e' then 8
      else if name[8] == 'A' then 205
      else if name[8] == 'd' then 179
      else if name[8] == 'S' then UNKNOWN_SSD
      else UNKNOWN_HDD
    case 22 =>
      if name[0] == 'C' && name[17] == 'e' then 197
      else if name[0] == 'D' && name[17] == '_' then 202
      else if name[0] == 'E' && name[17] == 'T' then 182
      else if name[0] == 'H' && name[17] == 'v' then 195
      else if name[0] == 'H' && name[17] == 'L' then 23
      else if name[0] == 'H' && name[17] == 'U' then 24
      else if name[0] == 'P' && name[17] == 'T' then 181
      else if name[0] == 'T' && name[17] == 'm' then 2
      else 178
    case 23 =>
      if name[6] == 'w' then 190
      else if name[6] == 'b' then 232
      else if name[6] == 'a' then 11
      else if name[6] == 'W' then 233
      else if name[6] == 'e' then 209
      else if name[6] == 'O' then 192
      else if name[6] == 'o' then 228
      else if name[6] == 'm' then 175
      else if name[6] == 'c' then 196
      else 180
    case _ => UNKNOWN
  }

  // By ranges of identifiers, to keep each proof small.

  lemma NamesTo6(id: uint8)
    requires id <= 6 && DefaultDef(id).Some?
    ensures ClassOf(DefaultDef(id).value.name) == Canonical(id)
  {
  }

  lemma NamesTo12(id: uint8)
    requires 7 <= id <= 12 && DefaultDef(id).Some?
    ensures ClassOf(DefaultDef(id).value.name) == Canonical(id)
  {
  }

  lemma NamesTo176(id: uint8)
    requires 13 <= id <= 176 && DefaultDef(id).Some?
    ensures ClassOf(DefaultDef(id).value.name) == Canonical(id)
  {
  }

  lemma NamesTo182(id: uint8)
    requires 177 <= id <= 182 && DefaultDef(id).Some?
    ensures ClassOf(DefaultDef(id).value.name) == Canonical(id)
  {
  }

  lemma NamesTo190(id: uint8)
    requires 183 <= id <= 190 && DefaultDef(id).Some?
    ensures ClassOf(DefaultDef(id).value.name) == Canonical(id)
  {
  }

  lemma NamesTo196(id: uint8)
    requires 191 <= id <= 196 && DefaultDef(id).Some?
    ensures ClassOf(DefaultDef(id).value.name) == Canonical(id)
  {
  }

  lemma NamesTo202(id: uint8)
    requires 197 <= id <= 202 && DefaultDef(id).Some?
    ensures ClassOf(DefaultDef(id).value.name) == Canonical(id)
  {
  }

  lemma NamesTo208(id: uint8)
    requires 203 <= id <= 208 && DefaultDef(id).Some?
    ensures ClassOf(DefaultDef(id).value.name) == Canonical(id)
  {
  }

  lemma NamesTo224(id: uint8)
    requires 209 <= id <= 224 && DefaultDef(id).Some?
    ensures ClassOf(DefaultDef(id).value.name) == Canonical(id)
  {
  }

  lemma NamesTo231(id: uint8)
    requires 225 <= id <= 231 && DefaultDef(id).Some?
    ensures ClassOf(DefaultDef(id).value.name) == Canonical(id)
  {
  }

  lemma NamesTo250(id: uint8)
    requires 232 <= id <= 250 && DefaultDef(id).Some?
    ensures ClassOf(DefaultDef(id).value.name) == Canonical(id)
  {
  }

  lemma NamesTo255(id: uint8)
    requires 251 <= id <= 255 && DefaultDef(id).Some?
    ensures ClassOf(DefaultDef(id).value.name) == Canonical(id)
  {
  }

  lemma NamesClassed(id: uint8)
    requires DefaultDef(id).Some?
    ensures ClassOf(DefaultDef(id).value.name) == Canonical(id)
  {
    if id <= 6 {
      NamesTo6(id);
    } else if id <= 12 {
      NamesTo12(id);
    } else if id <= 176 {
      NamesTo176(id);
    } else if id <= 182 {
      NamesTo182(id);
    } else if id <= 190 {
      NamesTo190(id);
    } else if id <= 196 {
      NamesTo196(id);
    } else if id <= 202 {
      NamesTo202(id);
    } else if id <= 208 {
      NamesTo208(id);
    } else if id <= 224 {
      NamesTo224(id);
    } else if id <= 231 {
      NamesTo231(id);
    } else if id <= 250 {
      NamesTo250(id);
    } else {
      NamesTo255(id);
    }
  }

  lemma AttrNameClass(id: uint8, rpm: int)
    ensures ClassOf(AttrName(id, rpm)) == NameClass(id, rpm)
  {
    if DefaultDef(id).Some? { NamesClassed(id); }
  }

  // Two identifiers print the same name exactly when they are in the same class.
  lemma SameNameIff(a: uint8, b: uint8, rpm: int)
    ensures AttrName(a, rpm) == AttrName(b, rpm) <==> NameClass(a, rpm) == NameClass(b, rpm)
  {
    AttrNameClass(a, rpm);
    AttrNameClass(b, rpm);
    if NameClass(a, rpm) == NameClass(b, rpm) && a != b {
      SharedNames();
    }
  }

  lemma SharedNames()
    ensures DefaultDef(221) == DefaultDef(191) && DefaultDef(225) == DefaultDef(193)
    ensures DefaultDef(194).Some? && DefaultDef(231).Some?
    ensures DefaultDef(231).value.name == DefaultDef(194).value.name
  {
  }

  // With an unknown rotation rate no name is masked by a restriction.
  lemma UnknownRateMasksNothing(id: uint8)
    ensures AttrName(id, 0) != "Unknown_SSD_Attribute" && AttrName(id, 0) != "Unknown_HDD_Attribute"
    ensures AttrName(id, 0) == "Unknown_Attribute" <==> DefaultDef(id).None?
  {
    AttrNameClass(id, 0);
    UnknownClasses();
  }

  // The identifiers in the table, and those restricted to one kind of disk.

  ghost predicate IsKnown(id: nat) {
    1 <= id <= 13 || 22 <= id <= 24 || 175 <= id <= 184 || 187 <= id <= 209 || 220 <= id <= 228
    || 230 <= id <= 233 || 240 <= id <= 242 || id == 250 || id == 254
  }

  ghost predicate IsHddOnly(id: nat) {
    6 <= id <= 8 || 10 <= id <= 11 || 22 <= id <= 24 || id == 189 || id == 191 || id == 193
    || 200 <= id <= 202 || 206 <= id <= 209 || 220 <= id <= 227 || 230 <= id <= 231 || id == 240 || id == 254
  }

  ghost predicate IsSsdOnly(id: nat) { 175 <= id <= 180 || id == 182 || id == 233 }

  ghost predicate Restricted(id: uint8) {
    && (DefaultDef(id).Some? <==> IsKnown(id))
    && (DefaultDef(id).Some? ==> (DefaultDef(id).value.restriction.HddOnly? <==> IsHddOnly(id)))
    && (DefaultDef(id).Some? ==> (DefaultDef(id).value.restriction.SsdOnly? <==> IsSsdOnly(id)))
  }

  lemma RestrictedTo24(id: uint8)
    requires id <= 24
    ensures Restricted(id)
  {
  }

  lemma RestrictedTo191(id: uint8)
    requires 24 < id <= 191
    ensures Restricted(id)
  {
  }

  lemma RestrictedTo255(id: uint8)
    requires id > 191
    ensures Restricted(id)
  {
  }

  // The three unknown names, by identifier and rate: outside the table, on the wrong kind of
  // disk, and never otherwise.
  lemma UnknownIff(id: uint8, rpm: int)
    ensures AttrName(id, rpm) == "Unknown_Attribute" <==> !IsKnown(id)
    ensures AttrName(id, rpm) == "Unknown_SSD_Attribute" <==> rpm == 1 && IsHddOnly(id)
    ensures AttrName(id, rpm) == "Unknown_HDD_Attribute" <==> rpm > 1 && IsSsdOnly(id)
  {
    if id <= 24 {
      RestrictedTo24(id);
    } else if id <= 191 {
      RestrictedTo191(id);
    } else {
      RestrictedTo255(id);
    }
    AttrNameClass(id, rpm);
    UnknownClasses();
  }

  lemma UnknownClasses()
    ensures ClassOf("Unknown_SSD_Attribute") == UNKNOWN_SSD
    ensures ClassOf("Unknown_HDD_Attribute") == UNKNOWN_HDD
    ensures ClassOf("Unknown_Attribute") == UNKNOWN
  {
  }

  // The name depends on the rate only through its class: unknown, SSD or HDD.
  lemma NameByRateClass(id: uint8, r: int, s: int)
    requires (r == 1 <==> s == 1) && (r > 1 <==> s > 1)
    ensures AttrName(id, r) == AttrName(id, s)
  {
  }
}
